/** The host's side: a buffer of commands in front of the device, and the replies read back. */
module MpsseHost {
  import opened Common
  import opened BitStreams
  import opened Mpsse
  import opened MpsseShift

  const BUF_SIZE: nat := 4096

  // ----- the replies, reassembled -------------------------------------------------------------------

  lemma {:induction false} BitBeyond(b: nat, n: nat, k: nat)
    requires b < Pow2(n) && n <= k
    ensures !Bit(b, k)
    decreases k
  {
    if n == 0 {
      BitOfZero(k);
    } else {
      BitBeyond(b / 2, n - 1, k - 1);
    }
  }

  lemma {:induction false} ByteBit8(b: byte)
    ensures !Bit(b, 8)
  {
    assert Pow2(8) == 256;
    BitBeyond(b, 8, 8);
  }

  /** `b` with bit `k` set if the top bit of `value` is. */
  function WithBit(b: byte, value: byte, k: nat): byte
    requires k < 8
  {
    if Bit(value, 7) then JoinedFits(b, k); SetBit(b, k) else b
  }

  /** The last byte: `k` bits shifted down, and the bit sampled with TMS above them. */
  function Joined(bits: byte, k: nat, tms: Option<byte>): byte
    requires 0 < k < 8
  {
    var low: byte := Shr(bits, 8 - k);
    if tms.Some? then WithBit(low, tms.value, k) else low
  }

  lemma {:induction false} JoinedFits(b: byte, k: nat)
    requires k < 8
    ensures SetBit(b, k) < 256
  {
    assert Pow2(8) == 256;
    SetBitFits(b, k, 8);
  }

  lemma {:induction false} JoinedBits(bits: byte, k: nat, tms: Option<byte>, i: nat)
    requires 0 < k < 8 && i < k + (if tms.Some? then 1 else 0)
    ensures Bit(Joined(bits, k, tms), i) == if i < k then Bit(bits, 8 - k + i) else tms.Some? && Bit(tms.value, 7)
  {
    var low := Shr(bits, 8 - k);
    BitOfShr(bits, 8 - k, i);
    ByteBit8(bits);
    if tms.Some? && Bit(tms.value, 7) { BitOfSetBit(low, k, i); }
  }

  /** What the host makes of the replies to a shift from edge `e`. */
  predicate Collected(w: World, e: nat, n: nat, final: bool, out: seq<byte>)
    requires n > 0
  {
    var m, k := WholeBytes(n, final), BitCount(n, final);
    && n <= 8 * |out|
    && (forall j | 0 <= j < m :: out[j] == w.reply(e + 8 * j, 8))
    && (k > 0 ==>
        && m < |out|
        && out[m] == Joined(w.reply(e + 8 * m, k), k, if final then Some(w.reply(e + (n - 1), 1)) else None))
  }

  /** From index `from` on, nothing is changed. */
  predicate Kept(before: seq<byte>, after: seq<byte>, from: nat) {
    |before| == |after| && forall j | from <= j < |before| :: after[j] == before[j]
  }

  /** Nothing but index `at` is changed. */
  predicate KeptBut(before: seq<byte>, after: seq<byte>, at: nat) {
    |before| == |after| && forall j | 0 <= j < |before| && j != at :: after[j] == before[j]
  }

  lemma {:induction false} KeptBoth(out0: seq<byte>, out1: seq<byte>, out2: seq<byte>, m: nat, bits: nat)
    requires Kept(out0, out1, m) && KeptBut(out1, out2, m) && (bits == 0 ==> out2 == out1)
    ensures Kept(out0, out2, m + if bits > 0 then 1 else 0)
  {
  }

  /** The residual bits and the TMS bit, joined at index `at`. */
  function Tail(before: seq<byte>, at: nat, k: nat, some: seq<byte>, last: seq<byte>): seq<byte>
    requires k < 8 && |some| == (if k > 0 then 1 else 0) && |last| <= 1 && (some != [] ==> at < |before|)
  {
    if some == [] then before else before[at := Joined(some[0], k, if last == [] then None else Some(last[0]))]
  }

  lemma {:induction false} TailSteps(out0: seq<byte>, out1: seq<byte>, out2: seq<byte>, at: nat, k: nat,
                                     some: seq<byte>, last: seq<byte>)
    requires k < 8 && |some| == (if k > 0 then 1 else 0) && |last| <= 1 && (some != [] ==> at < |out0|)
        && (last != [] ==> some != [])
    requires out1 == if some == [] then out0 else out0[at := Shr(some[0], 8 - k)]
    requires out2 == if last == [] then out1 else out1[at := WithBit(out1[at], last[0], k)]
    ensures out2 == Tail(out0, at, k, some, last)
  {
  }

  lemma {:induction false} TailPending(some: seq<byte>, last: seq<byte>)
    requires |some| <= 1 && |last| <= 1
    ensures some != [] ==> (some + last)[1..] == last
    ensures some == [] ==> some + last == last && (last != [] ==> (some + last)[1..] == [])
  {
  }

  lemma {:induction false} KeptButTwice(out0: seq<byte>, out1: seq<byte>, out2: seq<byte>, at: nat)
    requires KeptBut(out0, out1, at) && KeptBut(out1, out2, at)
    ensures KeptBut(out0, out2, at)
  {
  }

  /** What the buffer holds once the replies are in: `k` residual bits, and a last one if TMS was sent. */
  function Assembled(before: seq<byte>, whole: seq<byte>, k: nat, some: seq<byte>, last: seq<byte>): seq<byte>
    requires |whole| <= |before| && k < 8 && |some| == (if k > 0 then 1 else 0) && |last| <= 1
        && (some != [] ==> |whole| < |before|)
  {
    Tail(whole + before[|whole|..], |whole|, k, some, last)
  }

  lemma {:induction false} PendingParts(whole: seq<byte>, some: seq<byte>, last: seq<byte>)
    ensures (whole + some + last)[..|whole|] == whole && (whole + some + last)[|whole|..] == some + last
    ensures (some + last)[|some|..] == last
  {
  }

  lemma {:induction false} Placed(n: nat, final: bool, m: nat, k: nat, bits: nat)
    requires n > 0 && m == WholeBytes(n, final) && k == BitCount(n, final) && bits == Residual(n, final)
    ensures m + (if bits > 0 then 1 else 0) == (n + 7) / 8
    ensures bits == k + (if final then 1 else 0) && (bits == 1 && final <==> final && n % 8 == 1)
  {
  }

  /** The replies to a shift, by part. */
  lemma {:induction false} ExpectedReplies(w: World, e: nat, n: nat, final: bool, m: nat, bits: nat, room: nat)
    returns (whole: seq<byte>, some: seq<byte>, last: seq<byte>)
    requires n > 0 && n <= 8 * room && m == WholeBytes(n, final) && bits == Residual(n, final)
    ensures Answers(w, e, true, n, final) == whole + some + last
    ensures |whole| == m <= room && bits <= 8 && (bits == 8 ==> final) && (final ==> bits > 0)
        && (bits > 0 ==> m < room)
    ensures |some| == (if bits > (if final then 1 else 0) then 1 else 0) && |last| == (if final then 1 else 0)
    ensures m + (if bits > 0 then 1 else 0) == (n + 7) / 8 && (final && bits == 1 <==> final && n % 8 == 1)
    ensures bits - (if final then 1 else 0) == BitCount(n, final)
    ensures whole == Replies(w, e, m) && some == BitsAnswer(w, e + 8 * m, true, bits - if final then 1 else 0)
    ensures last == if final then TmsAnswer(w, e + (n - 1), true) else []
  {
    var k := BitCount(n, final);
    Placed(n, final, m, k, bits);
    AnswersParts(w, e, true, n, final, m, k);
    whole, some := WholeAnswer(w, e, true, m), BitsAnswer(w, e + 8 * m, true, k);
    last := if final then TmsAnswer(w, e + (n - 1), true) else [];
  }

  lemma {:induction false} Collecting(w: World, e: nat, n: nat, final: bool, m: nat, k: nat, out0: seq<byte>,
                                      whole: seq<byte>, some: seq<byte>, last: seq<byte>, out: seq<byte>)
    requires n > 0 && n <= 8 * |out0| && m == WholeBytes(n, final) && k == BitCount(n, final) && (final ==> k > 0)
    requires m <= |out0| && (k > 0 ==> m < |out0|)
    requires whole == Replies(w, e, m) && some == BitsAnswer(w, e + 8 * m, true, k)
    requires last == if final then TmsAnswer(w, e + (n - 1), true) else []
    requires out == Assembled(out0, whole, k, some, last)
    ensures Collected(w, e, n, final, out)
  {
    forall j | 0 <= j < m ensures out[j] == w.reply(e + 8 * j, 8) { RepliesAt(w, e, m, j); }
  }

  /** Every sample is in its place. */
  lemma {:induction false} CollectedBits(w: World, e: nat, n: nat, final: bool, out: seq<byte>, i: nat)
    requires n > 0 && Honest(w) && Collected(w, e, n, final, out) && !(final && n % 8 == 1) && i < n
    ensures BitAt(out, i) == w.tdo(e + i)
  {
    var m, k := WholeBytes(n, final), BitCount(n, final);
    if i < 8 * m {
      var j := i / 8;
      assert Sampled(w, e + 8 * j, 8, i % 8);
    } else {
      LastByteBits(w, e, n, final, out, m, k, i - 8 * m);
      assert i / 8 == m && i % 8 == i - 8 * m;
    }
  }

  lemma {:induction false} LastByteBits(w: World, e: nat, n: nat, final: bool, out: seq<byte>, m: nat, k: nat, r: nat)
    requires Honest(w) && 0 < k < 8 && m < |out| && n == 8 * m + k + (if final then 1 else 0) && r < n - 8 * m
    requires out[m] == Joined(w.reply(e + 8 * m, k), k, if final then Some(w.reply(e + (n - 1), 1)) else None)
    ensures Bit(out[m], r) == w.tdo(e + 8 * m + r)
  {
    var tms := if final then Some(w.reply(e + (n - 1), 1)) else None;
    JoinedBits(w.reply(e + 8 * m, k), k, tms, r);
    if r < k {
      assert Sampled(w, e + 8 * m, k, r);
    } else {
      assert Sampled(w, e + (n - 1), 1, 0);
    }
  }

  /** The replies the host goes on to read. */
  function Expected(n: nat, final: bool): nat
    requires n > 0
  {
    WholeBytes(n, final) + (if Residual(n, final) > 0 then 1 else 0) + (if final then 1 else 0)
  }

  /** The device sends as many replies as the host reads, unless TMS is raised on a bit that is first in
      its byte or the length field wrapped. */
  lemma {:induction false} RepliesShort(w: World, e: nat, n: nat, final: bool)
    requires n > 0
    ensures |Answers(w, e, true, Clocks(n, final), final)| <= Expected(n, final)
    ensures |Answers(w, e, true, Clocks(n, final), final)| < Expected(n, final) <==> ShortOfReplies(n, final)
  {
    var r := Clocks(n, final);
    AnswersParts(w, e, true, r, final, WholeBytes(r, final), BitCount(r, final));
  }

  // ----- lemmas about the stream ----------------------------------------------------------------------

  lemma {:induction false} EncodeMore(cs: seq<Command>, c: seq<Command>)
    requires |c| <= 1 && AllEncodable(cs) && AllEncodable(c)
    ensures AllEncodable(cs + c) && EncodeAll(cs + c) == EncodeAll(cs) + EncodeAll(c)
  {
    if c == [] {
      assert cs + c == cs;
    } else {
      EncodeOne(c[0]);
      assert c == [c[0]] && (cs + c)[..|cs|] == cs;
    }
  }

  lemma {:induction false} QueuedAll(q: seq<byte>, a: seq<Command>, b: seq<Command>, c: seq<Command>, cs: seq<Command>)
    requires |b| <= 1 && |c| <= 1 && AllEncodable(a) && AllEncodable(b) && AllEncodable(c) && cs == a + b + c
    ensures AllEncodable(cs) && q + EncodeAll(a) + EncodeAll(b) + EncodeAll(c) == q + EncodeAll(cs)
  {
    EncodeMore(a, b);
    EncodeMore(a + b, c);
    Regroup(q, EncodeAll(a), EncodeAll(b), EncodeAll(c));
  }

  lemma {:induction false} Regroup(q: seq<byte>, x: seq<byte>, y: seq<byte>, z: seq<byte>)
    ensures q + x + y + z == q + (x + y + z)
    ensures z == [] ==> q + x + y == q + (x + y)
  {
  }

  lemma {:induction false} EncodeOne(c: Command)
    requires Encodable(c)
    ensures EncodeAll([c]) == Encode(c)
  {
    assert [c][..0] == [];
  }

  lemma {:induction false} WholeQueued(q: seq<byte>, back: bool, data: Option<seq<byte>>, m: nat, head: seq<byte>)
    requires Supplies(data, 8 * m) && (back || data.Some?) && m > 0
    requires head == [Opcode(back, data.Some?, false)] + LengthField(m)
    ensures AllEncodable(WholePart(back, data, m))
    ensures q + EncodeAll(WholePart(back, data, m)) == if data.Some? then q + head + data.value[..m] else q + head
  {
    EncodeOne(Whole(back, Chunk(data, m), m));
    if data.Some? { Regroup(q, head, data.value[..m], []); }
  }

  lemma {:induction false} BitsQueued(q: seq<byte>, back: bool, data: Option<seq<byte>>, m: nat, k: nat,
                                      head: seq<byte>)
    requires 0 < k < 8 && Spare(data, m) && (back || data.Some?)
    requires head == [Opcode(back, data.Some?, true), k - 1]
    ensures AllEncodable(BitsPart(back, data, m, k))
    ensures q + EncodeAll(BitsPart(back, data, m, k)) == if data.Some? then q + head + [data.value[m]] else q + head
  {
    EncodeOne(BitsPart(back, data, m, k)[0]);
    if data.Some? { Regroup(q, head, [data.value[m]], []); }
  }

  lemma {:induction false} TmsQueued(q: seq<byte>, back: bool, data: Option<seq<byte>>, n: nat, value: byte)
    requires n > 0 && value == if LastBit(data, n) then 0x81 else 0x01
    ensures AllEncodable(TmsPart(back, data, n, true))
    ensures q + EncodeAll(TmsPart(back, data, n, true)) == q + [TmsOpcode(back), 0] + [value]
  {
    EncodeOne(Tms(back, value, 1));
    Regroup(q, [TmsOpcode(back), 0], [value], []);
  }

  /** Asking for the replies at once changes nothing else. */
  lemma {:induction false} SendImmediate(w: World, d: Device, s: seq<byte>)
    requires Aligned(s)
    ensures Aligned(s + [SEND_IMMEDIATE]) && Run(w, d, s + [SEND_IMMEDIATE]) == Run(w, d, s)
  {
    RunThen(w, d, s, [SEND_IMMEDIATE]);
    RunOne(w, Run(w, d, s), [SEND_IMMEDIATE]);
  }

  class Host {
    const w: World
    /** The device as it was when the session began. */
    const start: Device
    const outbuf: array<byte>
    var bufptr: nat
    /** Everything written to the device, and how many of its replies have been read. */
    var sent: seq<byte>
    var taken: nat

    constructor (w: World, start: Device)
      ensures Valid() && this.w == w && this.start == start && fresh(outbuf)
      ensures Queue() == [] && taken == |start.replies|
    {
      this.w, this.start := w, start;
      outbuf := new byte[BUF_SIZE](_ => 0);
      bufptr, sent, taken := 0, [], |start.replies|;
    }

    ghost predicate Valid()
      reads this
    {
      outbuf.Length == BUF_SIZE && bufptr <= BUF_SIZE
    }

    /** Everything queued so far, sent or not. */
    ghost function Queue(): seq<byte>
      requires Valid()
      reads this, outbuf
    {
      sent + outbuf[..bufptr]
    }

    /** The device once it has everything queued. */
    ghost function Dev(): Device
      requires Valid()
      reads this, outbuf
    {
      Run(w, start, Queue())
    }

    method Flush()
      requires Valid()
      modifies this
      ensures Valid() && Queue() == old(Queue()) && bufptr == 0 && taken == old(taken)
    {
      if bufptr == 0 { return; }
      sent := sent + outbuf[..bufptr];
      bufptr := 0;
    }

    method CopyIn(data: seq<byte>)
      requires Valid() && bufptr + |data| <= BUF_SIZE
      modifies outbuf
      ensures outbuf[..bufptr + |data|] == old(outbuf[..bufptr]) + data
    {
      for i := 0 to |data|
        invariant forall t | 0 <= t < bufptr :: outbuf[t] == old(outbuf[t])
        invariant forall t | bufptr <= t < bufptr + i :: outbuf[t] == data[t - bufptr]
      {
        outbuf[bufptr + i] := data[i];
      }
    }

    /** Nothing queued is lost or reordered, wherever the flushes fall. Once the flush test is past there
        is room for exactly the data that an empty buffer can hold; more would be copied past its end. */
    method BufferWrite(data: seq<byte>) returns (fits: bool)
      requires Valid()
      modifies this, outbuf
      ensures Valid() && taken == old(taken) && (fits <==> |data| <= BUF_SIZE)
      ensures fits ==> Queue() == old(Queue()) + data && (data != [] ==> bufptr > 0)
      ensures !fits ==> Queue() == old(Queue()) && bufptr + |data| > BUF_SIZE
    {
      if (bufptr + |data|) / BUF_SIZE > 0 { Flush(); }
      fits := bufptr + |data| <= BUF_SIZE;
      if !fits { return; }
      ghost var held := outbuf[..bufptr];
      CopyIn(data);
      bufptr := bufptr + |data|;
      assert sent + (held + data) == (sent + held) + data;
    }

    /** Replies not yet read. */
    ghost function Pending(): seq<byte>
      requires Valid()
      reads this, outbuf
    {
      if taken <= |Dev().replies| then Dev().replies[taken..] else []
    }

    ghost predicate Steady()
      reads this, outbuf
    {
      Valid() && Aligned(Queue()) && taken <= |Dev().replies|
    }

    /** The first half of a read: send whatever is queued, asking for the replies at once. Later reads of
        the same shift find nothing queued. */
    method FlushNow()
      requires Steady()
      modifies this, outbuf
      ensures Steady() && Dev() == old(Dev()) && bufptr == 0 && taken == old(taken)
    {
      if bufptr > 0 {
        SendImmediate(w, start, Queue());
        var _ := BufferWrite([SEND_IMMEDIATE]);
        Flush();
      }
    }

    /** Nothing is queued, and these replies are still to be read. */
    ghost predicate Holds(p: seq<byte>)
      reads this
    {
      && outbuf.Length == BUF_SIZE && bufptr == 0 && Aligned(sent)
      && var replies := Run(w, start, sent).replies;
         taken <= |replies| && p == replies[taken..]
    }

    /** The second half: take that many replies. `ok` is false where the host would wait for ever. */
    method TakeReplies(size: nat, ghost p: seq<byte>) returns (ok: bool, data: seq<byte>)
      requires Holds(p)
      modifies this`taken
      ensures ok == (size <= |p|)
      ensures if ok then data == p[..size] && Holds(p[size..]) else Holds(p)
    {
      var replies := Run(w, start, sent).replies;
      ok, data := taken + size <= |replies|, [];
      if ok {
        data := replies[taken..taken + size];
        taken := taken + size;
      }
    }

    /** The bytewise command and its data, if the buffer takes them. */
    method QueueWhole(back: bool, data: Option<seq<byte>>, bytes: nat) returns (fits: bool)
      requires Valid() && Supplies(data, 8 * bytes) && (back || data.Some?)
      modifies this, outbuf
      ensures Valid() && taken == old(taken) && AllEncodable(WholePart(back, data, bytes))
      ensures fits <==> (data.Some? ==> bytes <= BUF_SIZE)
      ensures fits ==> Queue() == old(Queue()) + EncodeAll(WholePart(back, data, bytes)) && (bytes > 0 ==> bufptr > 0)
    {
      fits := true;
      if bytes > 0 {
        var head := [Opcode(back, data.Some?, false)] + LengthField(bytes);
        WholeQueued(Queue(), back, data, bytes, head);
        fits := BufferWrite(head);
        if data.Some? { fits := BufferWrite(data.value[..bytes]); }
      }
    }

    method QueueBits(back: bool, data: Option<seq<byte>>, bytes: nat, count: nat)
      requires Valid() && count < 8 && (count > 0 ==> Spare(data, bytes)) && (back || data.Some?)
      modifies this, outbuf
      ensures Valid() && taken == old(taken) && AllEncodable(BitsPart(back, data, bytes, count))
      ensures Queue() == old(Queue()) + EncodeAll(BitsPart(back, data, bytes, count))
      ensures count > 0 || old(bufptr) > 0 ==> bufptr > 0
    {
      if count != 0 {
        var head := [Opcode(back, data.Some?, true), count - 1];
        BitsQueued(Queue(), back, data, bytes, count, head);
        var _ := BufferWrite(head);
        if data.Some? { var _ := BufferWrite([data.value[bytes]]); }
      }
    }

    method QueueTms(back: bool, data: Option<seq<byte>>, n: nat, final: bool)
      requires Valid() && n > 0 && Supplies(data, n)
      modifies this, outbuf
      ensures Valid() && taken == old(taken) && AllEncodable(TmsPart(back, data, n, final))
      ensures Queue() == old(Queue()) + EncodeAll(TmsPart(back, data, n, final))
      ensures final || old(bufptr) > 0 ==> bufptr > 0
    {
      if final {
        ghost var q := Queue();
        var _ := BufferWrite([TmsOpcode(back), 0]);
        var value := 1;
        if data.Some? && BitAt(data.value, n - 1) { value := value + 0x80; }
        TmsQueued(q, back, data, n, value);
        var _ := BufferWrite([value]);
      }
    }

    /** The commands for a shift, in order. */
    method QueueShift(back: bool, data: Option<seq<byte>>, n: nat, final: bool) returns (fits: bool)
      requires Valid() && n > 0 && Supplies(data, n) && (back || data.Some?)
      modifies this, outbuf
      ensures Valid() && taken == old(taken) && AllEncodable(Commands(back, data, n, final))
      ensures fits <==> (data.Some? ==> WholeBytes(n, final) <= BUF_SIZE)
      ensures fits ==> bufptr > 0 && Queue() == old(Queue()) + EncodeAll(Commands(back, data, n, final))
    {
      var bytes := (n - if final then 1 else 0) / 8;
      var bits := n % 8;
      if bits == 0 && final { bits := 8; }
      var count := bits - if final then 1 else 0;
      assert count == BitCount(n, final);
      CommandsParts(back, data, n, final, bytes, count);
      CommandsEncodable(back, data, n, final);
      ghost var q := Queue();
      fits := QueueWhole(back, data, bytes);
      if !fits { return; }
      QueueBits(back, data, bytes, count);
      QueueTms(back, data, n, final);
      QueuedAll(q, WholePart(back, data, bytes), BitsPart(back, data, bytes, count), TmsPart(back, data, n, final),
          Commands(back, data, n, final));
    }

    /** Read the whole bytes, if that many replies are there. */
    method ReadWhole(dataOut: array<byte>, bytes: nat, ghost p: seq<byte>) returns (ok: bool)
      requires Holds(p) && bytes <= dataOut.Length && dataOut != outbuf
      modifies this`taken, dataOut
      ensures ok == (bytes <= |p|)
      ensures ok ==> Holds(p[bytes..]) && dataOut[..] == p[..bytes] + old(dataOut[..])[bytes..]
      ensures !ok ==> Holds(p)
      ensures Kept(old(dataOut[..]), dataOut[..], bytes)
    {
      ok := true;
      if bytes > 0 {
        var data;
        ok, data := TakeReplies(bytes, p);
        if !ok { return; }
        for j := 0 to bytes
          modifies dataOut
          invariant forall t | 0 <= t < j :: dataOut[t] == data[t]
          invariant forall t | j <= t < dataOut.Length :: dataOut[t] == old(dataOut[t])
        {
          dataOut[j] := data[j];
        }
      }
    }

    /** Read one reply. */
    method ReadOne(ghost p: seq<byte>) returns (ok: bool, value: byte)
      requires Holds(p)
      modifies this`taken
      ensures ok == (p != [])
      ensures if ok then value == p[0] && Holds(p[1..]) else Holds(p)
    {
      var data;
      ok, data := TakeReplies(1, p);
      value := if ok then data[0] else 0;
    }

    /** Read the residual bits and shift them down. */
    method ReadBits(dataOut: array<byte>, at: nat, shift: nat, ghost p: seq<byte>) returns (ok: bool)
      requires Holds(p) && dataOut != outbuf && shift <= 8 && at < dataOut.Length
      modifies this`taken, dataOut
      ensures ok == (p != [])
      ensures if ok then Holds(p[1..]) && dataOut[..] == old(dataOut[..])[at := Shr(p[0], 8 - shift)]
              else Holds(p) && dataOut[..] == old(dataOut[..])
    {
      var value;
      ok, value := ReadOne(p);
      if ok { dataOut[at] := Shr(value, 8 - shift); }
    }

    /** Read the bit that came with TMS and put it in its place. */
    method ReadTms(dataOut: array<byte>, at: nat, bit: nat, ghost p: seq<byte>) returns (ok: bool)
      requires Holds(p) && dataOut != outbuf && bit < 8 && at < dataOut.Length
      modifies this`taken, dataOut
      ensures ok == (p != [])
      ensures if ok then Holds(p[1..]) && dataOut[..] == old(dataOut[..])[at := WithBit(old(dataOut[at]), p[0], bit)]
              else Holds(p) && dataOut[..] == old(dataOut[..])
    {
      var value;
      ok, value := ReadOne(p);
      if ok { dataOut[at] := WithBit(dataOut[at], value, bit); }
    }

    /** A byte if there are bits (one of which may be the one held back for TMS), then the TMS byte.
        It fails for want of replies if nothing but that one bit is left. */
    method ReadTail(dataOut: array<byte>, at: nat, bits: nat, final: bool, ghost some: seq<byte>, ghost last: seq<byte>)
      returns (ok: bool)
      requires Holds(some + last) && dataOut != outbuf && bits <= 8 && (bits == 8 ==> final)
      requires (final ==> bits > 0) && (bits > 0 ==> at < dataOut.Length)
      requires |some| == (if bits > (if final then 1 else 0) then 1 else 0) && |last| == (if final then 1 else 0)
      modifies this`taken, dataOut
      ensures Holds([]) && ok == !(final && bits == 1)
      ensures ok ==> dataOut[..] == Tail(old(dataOut[..]), at, bits - (if final then 1 else 0), some, last)
      ensures KeptBut(old(dataOut[..]), dataOut[..], at) && (bits == 0 ==> dataOut[..] == old(dataOut[..]))
    {
      ok := true;
      ghost var out0 := dataOut[..];
      TailPending(some, last);
      if bits > 0 {
        ok := ReadBits(dataOut, at, bits - if final then 1 else 0, some + last);
      }
      ghost var out1 := dataOut[..];
      ghost var p := if some != [] then last else [];
      if final {
        ok := ReadTms(dataOut, at, bits - 1, p);
      }
      KeptButTwice(out0, out1, dataOut[..], at);
      if ok { TailSteps(out0, out1, dataOut[..], at, bits - (if final then 1 else 0), some, last); }
    }

    /** The reads of a shift: whole bytes, then the tail. */
    method ReadParts(dataOut: array<byte>, bytes: nat, bits: nat, final: bool, ghost whole: seq<byte>,
                     ghost some: seq<byte>, ghost last: seq<byte>, ghost p: seq<byte>)
      returns (ok: bool)
      requires Holds(p) && dataOut != outbuf && |whole| == bytes <= dataOut.Length && bits <= 8 && (bits == 8 ==> final)
      requires (final ==> bits > 0) && (bits > 0 ==> bytes < dataOut.Length)
      requires |some| == (if bits > (if final then 1 else 0) then 1 else 0) && |last| == (if final then 1 else 0)
      requires |p| < bytes || p == whole + some + last
      modifies this`taken, dataOut
      ensures ok == !(|p| < bytes || (final && bits == 1)) && (Holds([]) || Holds(p)) && (ok ==> Holds([]))
      ensures ok ==> dataOut[..] == Assembled(old(dataOut[..]), whole, bits - (if final then 1 else 0), some, last)
      ensures Kept(old(dataOut[..]), dataOut[..], bytes + if bits > 0 then 1 else 0)
    {
      ghost var out0 := dataOut[..];
      PendingParts(whole, some, last);
      ok := ReadWhole(dataOut, bytes, p);
      if !ok { return; }
      ghost var out1 := dataOut[..];
      ok := ReadTail(dataOut, bytes, bits, final, some, last);
      KeptBoth(out0, out1, dataOut[..], bytes, bits);
    }

    /** Collect the replies to a shift that began at edge `e`. */
    method ReadReplies(dataOut: array<byte>, n: nat, final: bool, ghost e: nat, ghost p: seq<byte>) returns (ok: bool)
      requires Holds(p) && n > 0 && n <= 8 * dataOut.Length && dataOut != outbuf
      requires p == Answers(w, e, true, Clocks(n, final), final)
      modifies this`taken, dataOut
      ensures ok == !ShortOfReplies(n, final) && (Holds([]) || Holds(p))
      ensures ok ==> Holds([]) && Collected(w, e, n, final, dataOut[..])
      ensures Kept(old(dataOut[..]), dataOut[..], (n + 7) / 8)
    {
      var bytes := (n - if final then 1 else 0) / 8;
      var bits := n % 8;
      if bits == 0 && final { bits := 8; }
      ghost var whole, some, last := ExpectedReplies(w, e, n, final, bytes, bits, dataOut.Length);
      TooFewReplies(w, e, n, final);
      ghost var out0 := dataOut[..];
      ok := ReadParts(dataOut, bytes, bits, final, whole, some, last, p);
      if ok {
        Collecting(w, e, n, final, bytes, bits - (if final then 1 else 0), out0, whole, some, last, dataOut[..]);
      }
    }

    /** The same, with everything sent first. */
    method ReadShift(dataOut: array<byte>, n: nat, final: bool, ghost e: nat) returns (ok: bool)
      requires Steady() && n > 0 && n <= 8 * dataOut.Length && dataOut != outbuf
      requires Pending() == Answers(w, e, true, Clocks(n, final), final)
      modifies this, outbuf, dataOut
      ensures Steady() && Dev() == old(Dev())
      ensures ok == !ShortOfReplies(n, final)
      ensures ok ==> Pending() == [] && Collected(w, e, n, final, dataOut[..])
      ensures Kept(old(dataOut[..]), dataOut[..], (n + 7) / 8)
    {
      ghost var p := Pending();
      FlushNow();
      assert Queue() == sent;
      ok := ReadReplies(dataOut, n, final, e, p);
      assert Queue() == sent;
    }

    /** Queue a shift; its replies are then all that is pending. */
    method StartShift(back: bool, data: Option<seq<byte>>, n: nat, final: bool) returns (fits: bool)
      requires Steady() && Pending() == [] && n > 0 && Supplies(data, n) && (back || data.Some?)
      modifies this, outbuf
      ensures fits <==> (data.Some? ==> WholeBytes(n, final) <= BUF_SIZE)
      ensures fits ==> Steady() && Pending() == Answers(w, |old(Dev()).edges|, back, Clocks(n, final), final)
      ensures fits ==> Shift(old(Dev()), Dev(), w, back, data, Clocks(n, final), final)
    {
      ghost var q, d := Queue(), Dev();
      fits := QueueShift(back, data, n, final);
      if fits { ShiftQueued(w, start, q, d, back, data, n, final); }
    }

    method FinishShift(dataOut: array<byte>, n: nat, final: bool, ghost e: nat) returns (ok: bool)
      requires Steady() && n > 0 && n <= 8 * dataOut.Length && dataOut != outbuf && Honest(w)
      requires Pending() == Answers(w, e, true, Clocks(n, final), final)
      modifies this, outbuf, dataOut
      ensures Steady() && Dev() == old(Dev())
      ensures ok == !ShortOfReplies(n, final)
      ensures ok ==> Pending() == [] && Samples(w, e, n, dataOut[..])
      ensures Kept(old(dataOut[..]), dataOut[..], (n + 7) / 8)
    {
      ok := ReadShift(dataOut, n, final, e);
      if ok { AllCollected(w, e, n, final, dataOut[..]); }
    }

    /** One shift, for any count. The input and the output may be the same buffer. Whatever the flushes do,
        the device clocks the input's bits once and in order, with TMS as asked, and the output ends up
        holding what TDO was at each of those edges. It goes wrong exactly where the input's whole bytes
        outgrow the command buffer, where a read-only count outgrows the length field, and where TMS is
        raised on a bit that is first in its byte; the last two leave the host waiting. */
    method TdiTdoSeq(dataOut: array?<byte>, final: bool, dataIn: array?<byte>, n: nat) returns (r: Outcome)
      requires Steady() && Pending() == [] && Honest(w)
      requires dataIn != null ==> n <= 8 * dataIn.Length && dataIn != outbuf
      requires dataOut != null ==> n <= 8 * dataOut.Length && dataOut != outbuf
      modifies this, outbuf, dataOut
      ensures r.Overruns? <==> n > 0 && dataIn != null && WholeBytes(n, final) > BUF_SIZE
      ensures r.Waits? <==> n > 0 && !r.Overruns? && dataOut != null && ShortOfReplies(n, final)
      ensures !r.Overruns? ==> Steady()
      ensures !r.Overruns? ==>
                if n == 0 || (dataIn == null && dataOut == null) then Dev() == old(Dev())
                else Shift(old(Dev()), Dev(), w, dataOut != null, old(Input(dataIn)), Clocks(n, final), final)
      ensures r.Ended? ==> Pending() == [] && (dataOut != null ==> Samples(w, |old(Dev()).edges|, n, dataOut[..]))
      ensures dataOut != null ==> Kept(old(dataOut[..]), dataOut[..], (n + 7) / 8)
    {
      r := Ended;
      if n == 0 || (dataIn == null && dataOut == null) { return; }
      ghost var e := |Dev().edges|;
      var fits := StartShift(dataOut != null, Input(dataIn), n, final);
      if !fits { return Overruns; }
      if dataOut != null {
        var ok := FinishShift(dataOut, n, final, e);
        if !ok { return Waits; }
      }
    }
  }

  datatype Outcome = Ended | Waits | Overruns

  /** The host reads more replies than the device sends. */
  predicate ShortOfReplies(n: nat, final: bool)
    requires n > 0
  {
    (final && n % 8 == 1) || WholeBytes(n, final) > LONGEST
  }

  lemma {:induction false} TooFewReplies(w: World, e: nat, n: nat, final: bool)
    requires n > 0
    ensures |Answers(w, e, true, Clocks(n, final), final)| < WholeBytes(n, final) <==> WholeBytes(n, final) > LONGEST
    ensures WholeBytes(n, final) <= LONGEST ==> Clocks(n, final) == n
  {
    var r := Clocks(n, final);
    AnswersParts(w, e, true, r, final, WholeBytes(r, final), BitCount(r, final));
    if WholeBytes(n, final) > LONGEST { FieldFar(WholeBytes(n, final)); }
  }

  /** Beyond the field the count it gives is off by at least as much as it can hold. */
  lemma {:induction false} FieldFar(m: nat)
    requires m > LONGEST
    ensures FieldCount(m) + LONGEST <= m
  {
    var q := (m - 1) / LONGEST;
    assert m - 1 == LONGEST * q + (m - 1) % LONGEST && q >= 1;
  }

  function Input(dataIn: array?<byte>): Option<seq<byte>>
    reads dataIn
  {
    if dataIn == null then None else Some(dataIn[..])
  }

  /** The device has clocked the shift, and no more. */
  predicate Shift(before: Device, after: Device, w: World, back: bool, data: Option<seq<byte>>, n: nat, final: bool)
    requires n > 0
  {
    Finished(Want(before.pins, data, n, final), n, before, after, Answers(w, |before.edges|, back, n, final))
  }

  /** The buffer holds what TDO was at the `n` edges from `e` on. */
  predicate Samples(w: World, e: nat, n: nat, out: seq<byte>) {
    forall i: nat | i < n :: BitAt(out, i) == w.tdo(e + i)
  }

  lemma {:induction false} ShiftQueued(w: World, start: Device, q: seq<byte>, d: Device, back: bool,
                                       data: Option<seq<byte>>, n: nat, final: bool)
    requires Aligned(q) && d == Run(w, start, q)
    requires (back || data.Some?) && n > 0 && Supplies(data, n) && (data.Some? ==> WholeBytes(n, final) <= LONGEST)
    ensures AllEncodable(Commands(back, data, n, final))
    ensures var all, r := q + EncodeAll(Commands(back, data, n, final)), Clocks(n, final);
            var after := Run(w, start, all);
            && Aligned(all)
            && Shift(d, after, w, back, data, r, final)
            && |after.replies| == |d.replies| + |Answers(w, |d.edges|, back, r, final)|
            && after.replies[|d.replies|..] == Answers(w, |d.edges|, back, r, final)
            && (!back ==> Answers(w, |d.edges|, back, r, final) == [])
  {
    CommandsMeaning(w, d, back, data, n, final);
    RunThen(w, start, q, EncodeAll(Commands(back, data, n, final)));
  }

  lemma {:induction false} AllCollected(w: World, e: nat, n: nat, final: bool, out: seq<byte>)
    requires n > 0 && Honest(w) && Collected(w, e, n, final, out) && !(final && n % 8 == 1)
    ensures Samples(w, e, n, out)
  {
    forall i: nat | i < n ensures BitAt(out, i) == w.tdo(e + i) { CollectedBits(w, e, n, final, out, i); }
  }
}
