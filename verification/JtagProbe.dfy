/** The probe's bit-banged JTAG port, in its two timing variants. */
module JtagProbe {
  import opened Common
  import opened BitStreams
  import opened JtagTap

  /** `k` answers from `f`, packed lowest bit first; the bits above them are clear. */
  function Pack(f: nat -> bool, from: nat, k: nat): (r: nat)
  {
    if k == 0 then 0
    else if f(from + k - 1) then SetBit(Pack(f, from, k - 1), k - 1) else Pack(f, from, k - 1)
  }

  lemma {:induction false} PackBits(f: nat -> bool, from: nat, k: nat, i: nat)
    ensures Bit(Pack(f, from, k), i) == (i < k && f(from + i))
  {
    if k == 0 {
      BitOfZero(i);
    } else {
      PackBits(f, from, k - 1, i);
      BitOfSetBit(Pack(f, from, k - 1), k - 1, i);
    }
  }

  lemma {:induction false} PackFits(f: nat -> bool, from: nat, k: nat)
    requires k <= 8
    ensures Pack(f, from, k) < 256
  {
    assert Pow2(8) == 256;
    if k > 0 {
      PackFits(f, from, k - 1);
      SetBitFits(Pack(f, from, k - 1), k - 1, 8);
    }
  }

  /** `n` answers from edge `e` on are packed into `out`, and the rest of it is as it was. */
  predicate Packed(tdo: nat -> bool, e: nat, n: nat, before: seq<byte>, out: seq<byte>) {
    && |out| == |before| && n <= 8 * |out|
    && (forall j | 0 <= j < |out| && 8 * j < n :: out[j] == Pack(tdo, e + 8 * j, Min(8, n - 8 * j)))
    && (forall j | 0 <= j < |out| && 8 * j >= n :: out[j] == before[j])
  }

  /** Read bit by bit: the answers, then zeros to the end of the last byte. */
  lemma {:induction false} PackedBits(tdo: nat -> bool, e: nat, n: nat, before: seq<byte>, out: seq<byte>, i: nat)
    requires Packed(tdo, e, n, before, out) && 8 * (i / 8) < n
    ensures BitAt(out, i) == (i < n && tdo(e + i))
  {
    var j, r := i / 8, i % 8;
    PackBits(tdo, e + 8 * j, Min(8, n - 8 * j), r);
    assert i == 8 * j + r;
  }

  /** The part of the packing that is done after `c` of `n` cycles: whole bytes are stored. */
  predicate Packing(tdo: nat -> bool, e: nat, c: nat, before: seq<byte>, out: seq<byte>, value: nat) {
    && |out| == |before|
    && (forall j | 0 <= j < |out| && j < c / 8 :: out[j] == Pack(tdo, e + 8 * j, 8))
    && (forall j | c / 8 <= j < |out| :: out[j] == before[j])
    && value == Pack(tdo, e + 8 * (c / 8), c % 8)
  }

  lemma {:induction false} PackingStep(tdo: nat -> bool, e: nat, c: nat, before: seq<byte>, out: seq<byte>,
                                       value: nat, value1: nat, out1: seq<byte>, value2: nat)
    requires Packing(tdo, e, c, before, out, value) && (c % 8 == 7 ==> c / 8 < |out|)
    requires value1 == if tdo(e + c) then SetBit(value, c % 8) else value
    requires value1 < 256 && out1 == if c % 8 == 7 then out[c / 8 := value1] else out
    requires value2 == if c % 8 == 7 then 0 else value1
    ensures Packing(tdo, e, c + 1, before, out1, value2)
  {
    Place(c);
    var from := e + 8 * (c / 8);
    assert value1 == Pack(tdo, from, c % 8 + 1);
  }

  /** The next value, before it is stored. */
  lemma {:induction false} PackingFits(tdo: nat -> bool, e: nat, c: nat, before: seq<byte>, out: seq<byte>, value: nat)
    requires Packing(tdo, e, c, before, out, value)
    ensures (if tdo(e + c) then SetBit(value, c % 8) else value) < 256
  {
    Place(c);
    PackFits(tdo, e + 8 * (c / 8), c % 8 + 1);
    assert Pack(tdo, e + 8 * (c / 8), c % 8 + 1) == if tdo(e + c) then SetBit(value, c % 8) else value;
  }

  lemma {:induction false} Place(c: nat)
    ensures c == 8 * (c / 8) + c % 8
    ensures if c % 8 == 7 then (c + 1) / 8 == c / 8 + 1 && (c + 1) % 8 == 0
            else (c + 1) / 8 == c / 8 && (c + 1) % 8 == c % 8 + 1
  {
  }

  lemma {:induction false} PackingDone(tdo: nat -> bool, e: nat, n: nat, before: seq<byte>, out: seq<byte>,
                                       value: byte, out1: seq<byte>)
    requires Packing(tdo, e, n, before, out, value) && n <= 8 * |out|
    requires out1 == if n % 8 != 0 then out[(n - 1) / 8 := value] else out
    ensures Packed(tdo, e, n, before, out1)
  {
    Place(n);
    var m := n / 8;
    if n % 8 != 0 { assert (n - 1) / 8 == m; }
    forall j | 0 <= j < |out1|
      ensures if 8 * j < n then out1[j] == Pack(tdo, e + 8 * j, Min(8, n - 8 * j)) else out1[j] == before[j]
    {
      if j < m { assert 8 * j + 8 <= n; }
    }
  }

  /** The first `c` levels of a line have gone out. */
  predicate Sent(before: seq<Pins>, edges: seq<Pins>, line: nat -> Pins, c: nat) {
    edges == before + Tabulate(line, 0, c)
  }

  lemma {:induction false} SentNext(before: seq<Pins>, edges: seq<Pins>, line: nat -> Pins, c: nat)
    requires Sent(before, edges, line, c)
    ensures Sent(before, edges + [line(c)], line, c + 1) && |edges| == |before| + c
  {
  }

  /** The next level of a data shift, from bytes that may have been overwritten where they are done with. */
  lemma {:induction false} DataNext(before: seq<Pins>, edges: seq<Pins>, input: seq<byte>, n: nat, final: bool,
                                    c: nat, x: byte)
    requires c / 8 < |input| && x == input[c / 8] && Sent(before, edges, DataLine(input, n, final), c)
    ensures Sent(before, edges + [Pins(c + 1 >= n && final, Bit(x, c % 8))], DataLine(input, n, final), c + 1)
    ensures |edges| == |before| + c
  {
    SentNext(before, edges, DataLine(input, n, final), c);
  }

  /** A scan after `before`. */
  lemma {:induction false} ScanFrom(s: Tap, before: seq<Pins>, edges: seq<Pins>, ir: bool, data: seq<byte>, n: nat,
                                    cycles: nat)
    requires n > 0 && Walk(s, before) == Idle && edges == before + ScanLine(ir, data, n, cycles)
    ensures cycles > 0 <==> Walk(s, edges) == Idle
    ensures Clocked(s, ShiftState(ir), edges) == Clocked(s, ShiftState(ir), before) + Tabulate(DataBit(data), 0, n)
  {
    WalkThen(s, ShiftState(ir), before, ScanLine(ir, data, n, cycles));
    Scan(ir, data, n, cycles);
  }

  lemma {:induction false} ScanParts(before: seq<Pins>, a: seq<Pins>, b: seq<Pins>, c: seq<Pins>)
    ensures before + a + b + c == before + (a + b + c)
  {
  }

  /** What a buffer holds; none holds nothing. */
  function Contents(data: array?<byte>): seq<byte>
    reads data
  {
    if data == null then [] else data[..]
  }

  class Port {
    /** The divider asks for delays; otherwise the clock runs as fast as the code. */
    const delays: bool
    /** What the target answers at each rising edge. */
    const tdo: nat -> bool
    var tck: bool
    var tms: bool
    var tdi: bool
    /** The levels at every rising edge so far. */
    var edges: seq<Pins>

    constructor (delays: bool, tdo: nat -> bool)
      ensures this.delays == delays && this.tdo == tdo && !tck && edges == []
    {
      this.delays, this.tdo := delays, tdo;
      tck, tms, tdi, edges := false, false, false, [];
    }

    method SetTck()
      modifies this`tck, this`edges
      ensures tck
      ensures edges == if old(tck) then old(edges) else old(edges) + [Pins(tms, tdi)]
    {
      if !tck { edges := edges + [Pins(tms, tdi)]; }
      tck := true;
    }

    method ClearTck()
      modifies this`tck
      ensures !tck
    {
      tck := false;
    }

    method GetTdo() returns (b: bool)
      requires |edges| > 0
      ensures b == tdo(|edges| - 1)
    {
      b := tdo(|edges| - 1);
    }

    method NextState(tmsLevel: bool, tdiLevel: bool) returns (b: bool)
      requires !tck
      modifies this
      ensures !tck && edges == old(edges) + [Pins(tmsLevel, tdiLevel)] && b == tdo(|old(edges)|)
    {
      tms := tmsLevel;
      tdi := tdiLevel;
      SetTck();
      b := GetTdo();
      ClearTck();
    }

    /** Set up the pins, start the clock cycle and look at the answer. */
    method RaiseTck(tmsLevel: bool, tdiLevel: bool) returns (answer: bool)
      requires !tck
      modifies this
      ensures tck && edges == old(edges) + [Pins(tmsLevel, tdiLevel)] && answer == tdo(|old(edges)|)
    {
      tms := tmsLevel;
      tdi := tdiLevel;
      SetTck();
      answer := GetTdo();
    }

    method TmsSeqDelay(tmsStates: nat, cycles: nat)
      requires !tck && tdi
      modifies this
      ensures !tck && edges == old(edges) + Tabulate(TmsLine(tmsStates), 0, cycles)
    {
      var states := tmsStates;
      for cycle := 0 to cycles
        invariant !tck && tdi && states == Shr(tmsStates, cycle)
        invariant edges == old(edges) + Tabulate(TmsLine(tmsStates), 0, cycle)
      {
        BitOfShr(tmsStates, cycle, 0);
        ShrNext(tmsStates, cycle);
        tms := states % 2 == 1;
        SetTck();
        states := states / 2;
        ClearTck();
      }
    }

    method TmsSeqNoDelay(tmsStates: nat, cycles: nat)
      requires !tck && tdi
      modifies this
      ensures !tck && edges == old(edges) + Tabulate(TmsLine(tmsStates), 0, cycles)
    {
      var states := tmsStates;
      var state := states % 2 == 1;
      for cycle := 0 to cycles
        invariant !tck && tdi && states == Shr(tmsStates, cycle) && state == (states % 2 == 1)
        invariant edges == old(edges) + Tabulate(TmsLine(tmsStates), 0, cycle)
      {
        BitOfShr(tmsStates, cycle, 0);
        ShrNext(tmsStates, cycle);
        tms := state;
        SetTck();
        states := states / 2;
        state := states % 2 == 1;
        ClearTck();
      }
    }

    method TmsSeq(tmsStates: nat, cycles: nat)
      requires !tck
      modifies this
      ensures !tck && edges == old(edges) + Tabulate(TmsLine(tmsStates), 0, cycles)
    {
      tdi := true;
      if delays { TmsSeqDelay(tmsStates, cycles); } else { TmsSeqNoDelay(tmsStates, cycles); }
    }

    /** Store the answer of cycle `c`: whole bytes go to the buffer as they fill, and there it faults if
        there is no buffer. */
    method Accumulate(dataOut: array?<byte>, c: nat, answer: bool, value: byte, ghost e: nat, ghost before: seq<byte>)
      returns (fault: bool, next: byte)
      requires dataOut != null ==> c / 8 < dataOut.Length
      requires Packing(tdo, e, c, before, Contents(dataOut), value) && answer == tdo(e + c)
      modifies dataOut
      ensures fault <==> dataOut == null && c % 8 == 7
      ensures !fault ==> Packing(tdo, e, c + 1, before, Contents(dataOut), next)
    {
      ghost var out := Contents(dataOut);
      PackingFits(tdo, e, c, before, out, value);
      var bit, at := c % 8, c / 8;
      fault, next := false, value;
      if answer { next := SetBit(value, bit); }
      ghost var value1 := next;
      if bit == 7 {
        if dataOut == null { return true, next; }
        dataOut[at] := next;
        next := 0;
      }
      PackingStep(tdo, e, c, before, out, value, value1, Contents(dataOut), next);
    }

    /** Store what is left if `n` is not a multiple of 8. */
    method StoreRest(dataOut: array?<byte>, n: nat, value: byte, ghost e: nat, ghost before: seq<byte>)
      returns (fault: bool)
      requires dataOut != null ==> n <= 8 * dataOut.Length
      requires Packing(tdo, e, n, before, Contents(dataOut), value)
      modifies dataOut
      ensures fault <==> dataOut == null && n % 8 != 0
      ensures !fault && dataOut != null ==> Packed(tdo, e, n, before, dataOut[..])
    {
      ghost var out := Contents(dataOut);
      fault := false;
      if n % 8 != 0 {
        if dataOut == null { return true; }
        var at := (n - 1) / 8;
        dataOut[at] := value;
      }
      if dataOut != null { PackingDone(tdo, e, n, before, out, value, dataOut[..]); }
    }

    /** `c` bits of a shift are done: `sent0`, `out0` and `input` are what there was at its start. The
        input that is still needed is not overwritten, even in a shared buffer. */
    ghost predicate Midway(dataIn: array<byte>, dataOut: array?<byte>, final: bool, n: nat, c: nat, value: byte,
                           sent0: seq<Pins>, out0: seq<byte>, input: seq<byte>)
      reads this, dataIn, dataOut
    {
      && c <= n <= 8 * dataIn.Length && |input| == dataIn.Length
      && (if dataOut != null then n <= 8 * dataOut.Length else c < 8)
      && Sent(sent0, edges, DataLine(input, n, final), c)
      && Packing(tdo, |sent0|, c, out0, Contents(dataOut), value)
      && forall j | c / 8 <= j < dataIn.Length :: dataIn[j] == input[j]
    }

    /** One bit: the edge, its answer, and the byte if that fills one. */
    method ClockBit(dataIn: array<byte>, dataOut: array?<byte>, final: bool, n: nat, cycle: nat, value: byte,
                    ghost sent0: seq<Pins>, ghost out0: seq<byte>, ghost input: seq<byte>)
      returns (fault: bool, next: byte)
      requires !tck && cycle < n && Midway(dataIn, dataOut, final, n, cycle, value, sent0, out0, input)
      modifies this, dataOut
      ensures fault <==> dataOut == null && cycle == 7
      ensures if fault then Sent(sent0, edges, DataLine(input, n, final), 8)
              else Midway(dataIn, dataOut, final, n, cycle + 1, next, sent0, out0, input)
    {
      var bit, at := cycle % 8, cycle / 8;
      var tmsLevel, tdiLevel := cycle + 1 >= n && final, Bit(dataIn[at], bit);
      DataNext(sent0, edges, input, n, final, cycle, dataIn[at]);
      var answer := RaiseTck(tmsLevel, tdiLevel);
      fault, next := Accumulate(dataOut, cycle, answer, value, |sent0|, out0);
    }

    /** After the last bit. */
    method Finish(ghost dataIn: array<byte>, dataOut: array?<byte>, ghost final: bool, n: nat, value: byte,
                  ghost sent0: seq<Pins>, ghost out0: seq<byte>, ghost input: seq<byte>)
      returns (fault: bool)
      requires Midway(dataIn, dataOut, final, n, n, value, sent0, out0, input)
      modifies dataOut
      ensures fault <==> dataOut == null && n > 0
      ensures Sent(sent0, edges, DataLine(input, n, final), if fault then Min(8, n) else n)
      ensures !fault && dataOut != null ==> Packed(tdo, |sent0|, n, out0, dataOut[..])
    {
      fault := StoreRest(dataOut, n, value, |sent0|, out0);
    }

    method TdiTdoSeqDelay(dataIn: array<byte>, dataOut: array?<byte>, final: bool, n: nat) returns (fault: bool)
      requires !tck && n <= 8 * dataIn.Length && (dataOut != null ==> n <= 8 * dataOut.Length)
      modifies this, dataOut
      ensures fault <==> dataOut == null && n > 0
      ensures Sent(old(edges), edges, DataLine(old(dataIn[..]), n, final), if fault then Min(8, n) else n)
      ensures !fault ==> !tck && (dataOut != null ==> Packed(tdo, |old(edges)|, n, old(Contents(dataOut)), dataOut[..]))
    {
      var value: byte := 0;
      ghost var sent0, out0, input := edges, Contents(dataOut), dataIn[..];
      for cycle := 0 to n
        invariant !tck && Midway(dataIn, dataOut, final, n, cycle, value, sent0, out0, input)
      {
        fault, value := ClockBit(dataIn, dataOut, final, n, cycle, value, sent0, out0, input);
        if fault { return; }
        ClearTck();
      }
      fault := Finish(dataIn, dataOut, final, n, value, sent0, out0, input);
    }

    /** Here the clock of a cycle only falls once the next one begins. */
    method TdiTdoSeqNoDelay(dataIn: array<byte>, dataOut: array?<byte>, final: bool, n: nat) returns (fault: bool)
      requires n <= 8 * dataIn.Length && (dataOut != null ==> n <= 8 * dataOut.Length)
      modifies this, dataOut
      ensures fault <==> dataOut == null && n > 0
      ensures Sent(old(edges), edges, DataLine(old(dataIn[..]), n, final), if fault then Min(8, n) else n)
      ensures !fault ==> !tck && (dataOut != null ==> Packed(tdo, |old(edges)|, n, old(Contents(dataOut)), dataOut[..]))
    {
      var value: byte := 0;
      ghost var sent0, out0, input := edges, Contents(dataOut), dataIn[..];
      for cycle := 0 to n
        invariant Midway(dataIn, dataOut, final, n, cycle, value, sent0, out0, input)
      {
        ClearTck();
        fault, value := ClockBit(dataIn, dataOut, final, n, cycle, value, sent0, out0, input);
        if fault { return; }
      }
      fault := Finish(dataIn, dataOut, final, n, value, sent0, out0, input);
      if fault { return; }
      ClearTck();
    }

    /** Both variants do the same: the input goes out bit by bit and the answers come in, also when
        they share a buffer. Without an output buffer they fault at the first byte to be stored, after
        eight edges or at the end of a shorter shift. */
    method TdiTdoSeq(dataOut: array?<byte>, final: bool, dataIn: array<byte>, n: nat) returns (fault: bool)
      requires !tck && n <= 8 * dataIn.Length && (dataOut != null ==> n <= 8 * dataOut.Length)
      modifies this, dataOut
      ensures fault <==> dataOut == null && n > 0
      ensures Sent(old(edges), edges, DataLine(old(dataIn[..]), n, final), if fault then Min(8, n) else n)
      ensures !fault ==> !tck && (dataOut != null ==> Packed(tdo, |old(edges)|, n, old(Contents(dataOut)), dataOut[..]))
    {
      tms, tdi := false, false;
      if delays {
        fault := TdiTdoSeqDelay(dataIn, dataOut, final, n);
      } else {
        fault := TdiTdoSeqNoDelay(dataIn, dataOut, final, n);
      }
    }

    method TdiSeqDelay(dataIn: array<byte>, final: bool, n: nat)
      requires !tck && n <= 8 * dataIn.Length
      modifies this
      ensures !tck && edges == old(edges) + Tabulate(DataLine(dataIn[..], n, final), 0, n)
    {
      ghost var sent0, input := edges, dataIn[..];
      for cycle := 0 to n
        invariant !tck && Sent(sent0, edges, DataLine(input, n, final), cycle)
      {
        DataNext(sent0, edges, input, n, final, cycle, dataIn[cycle / 8]);
        tms := cycle + 1 >= n && final;
        tdi := Bit(dataIn[cycle / 8], cycle % 8);
        SetTck();
        ClearTck();
      }
    }

    method TdiSeqNoDelay(dataIn: array<byte>, final: bool, n: nat)
      requires !tck && n <= 8 * dataIn.Length
      modifies this
      ensures !tck && edges == old(edges) + Tabulate(DataLine(dataIn[..], n, final), 0, n)
    {
      var cycle := 0;
      ghost var sent0, input := edges, dataIn[..];
      while cycle < n
        invariant 0 <= cycle <= n && Sent(sent0, edges, DataLine(input, n, final), cycle)
      {
        DataNext(sent0, edges, input, n, final, cycle, dataIn[cycle / 8]);
        var tmsLevel := cycle + 1 >= n && final;
        var tdiLevel := Bit(dataIn[cycle / 8], cycle % 8);
        ClearTck();
        tms := tmsLevel;
        tdi := tdiLevel;
        cycle := cycle + 1;
        SetTck();
      }
      ClearTck();
    }

    method TdiSeq(final: bool, dataIn: array<byte>, n: nat)
      requires !tck && n <= 8 * dataIn.Length
      modifies this
      ensures !tck && edges == old(edges) + Tabulate(DataLine(dataIn[..], n, final), 0, n)
    {
      tms := false;
      if delays { TdiSeqDelay(dataIn, final, n); } else { TdiSeqNoDelay(dataIn, final, n); }
    }

    /** A whole scan, from Run-Test/Idle and back to it: the controller sees just the data's bits. */
    method ScanRegister(ir: bool, dataOut: array<byte>, dataIn: array<byte>, n: nat, cycles: nat, ghost s: Tap)
      requires !tck && 0 < n <= 8 * dataIn.Length && n <= 8 * dataOut.Length && Walk(s, edges) == Idle
      modifies this, dataOut
      ensures !tck && edges == old(edges) + ScanLine(ir, old(dataIn[..]), n, cycles)
      ensures cycles > 0 <==> Walk(s, edges) == Idle
      ensures Packed(tdo, |old(edges)| + |EntryLine(ir)|, n, old(dataOut[..]), dataOut[..])
      ensures Clocked(s, ShiftState(ir), edges) == old(Clocked(s, ShiftState(ir), edges))
          + Tabulate(DataBit(old(dataIn[..])), 0, n)
    {
      ghost var before, data := edges, dataIn[..];
      if ir { TmsSeq(0x03, 4); } else { TmsSeq(0x01, 3); }
      var _ := TdiTdoSeq(dataOut, true, dataIn, n);
      TmsSeq(0x01, cycles + 1);
      ScanParts(before, EntryLine(ir), Tabulate(DataLine(data, n, true), 0, n), ExitLine(cycles));
      ScanFrom(s, before, edges, ir, data, n, cycles);
    }
  }

  lemma {:induction false} ShrNext(b: nat, k: nat)
    ensures Shr(b, k + 1) == Shr(b, k) / 2
    decreases k
  {
    if k > 0 { ShrNext(b / 2, k - 1); }
  }
}
