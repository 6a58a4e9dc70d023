/** The TAP controller (section 6.1 of IEEE 1149.1-2001), and the walks the probe takes through it. */
module JtagTap {
  import opened Common
  import opened BitStreams

  datatype Tap =
    | Reset | Idle
    | SelectDR | CaptureDR | ShiftDR | Exit1DR | PauseDR | Exit2DR | UpdateDR
    | SelectIR | CaptureIR | ShiftIR | Exit1IR | PauseIR | Exit2IR | UpdateIR

  function Next(s: Tap, tms: bool): Tap {
    match s
    case Reset => if tms then Reset else Idle
    case Idle => if tms then SelectDR else Idle
    case SelectDR => if tms then SelectIR else CaptureDR
    case CaptureDR => if tms then Exit1DR else ShiftDR
    case ShiftDR => if tms then Exit1DR else ShiftDR
    case Exit1DR => if tms then UpdateDR else PauseDR
    case PauseDR => if tms then Exit2DR else PauseDR
    case Exit2DR => if tms then UpdateDR else ShiftDR
    case UpdateDR => if tms then SelectDR else Idle
    case SelectIR => if tms then Reset else CaptureIR
    case CaptureIR => if tms then Exit1IR else ShiftIR
    case ShiftIR => if tms then Exit1IR else ShiftIR
    case Exit1IR => if tms then UpdateIR else PauseIR
    case PauseIR => if tms then Exit2IR else PauseIR
    case Exit2IR => if tms then UpdateIR else ShiftIR
    case UpdateIR => if tms then SelectDR else Idle
  }

  function Walk(s: Tap, line: seq<Pins>): Tap {
    if line == [] then s else Next(Walk(s, line[..|line| - 1]), line[|line| - 1].tms)
  }

  /** The TDI bits clocked while the controller is in state `at`. */
  function Clocked(s: Tap, at: Tap, line: seq<Pins>): seq<bool> {
    if line == [] then []
    else
      var front := line[..|line| - 1];
      Clocked(s, at, front) + if Walk(s, front) == at then [line[|line| - 1].tdi] else []
  }

  lemma {:induction false} WalkThen(s: Tap, at: Tap, a: seq<Pins>, b: seq<Pins>)
    ensures Walk(s, a + b) == Walk(Walk(s, a), b)
    ensures Clocked(s, at, a + b) == Clocked(s, at, a) + Clocked(Walk(s, a), at, b)
    decreases |b|
  {
    if b == [] {
      assert a + b == a;
    } else {
      var c, p := b[..|b| - 1], b[|b| - 1];
      WalkThen(s, at, a, c);
      assert a + b == a + c + [p];
      WalkSnoc(s, at, a + b, a + c, p);
      WalkSnoc(Walk(s, a), at, b, c, p);
      Regroup(Clocked(s, at, a), Clocked(Walk(s, a), at, c), if Walk(Walk(s, a), c) == at then [p.tdi] else []);
    }
  }

  lemma {:induction false} Regroup(x: seq<bool>, y: seq<bool>, z: seq<bool>)
    ensures x + y + z == x + (y + z)
  {
  }

  lemma {:induction false} WalkSnoc(s: Tap, at: Tap, line: seq<Pins>, front: seq<Pins>, p: Pins)
    requires line == front + [p]
    ensures Walk(s, line) == Next(Walk(s, front), p.tms)
    ensures Clocked(s, at, line) == Clocked(s, at, front) + if Walk(s, front) == at then [p.tdi] else []
  {
    assert line[..|line| - 1] == front;
  }

  /** The same over `n` values of a function. */
  function WalkOn(s: Tap, f: nat -> Pins, n: nat): Tap {
    if n == 0 then s else Next(WalkOn(s, f, n - 1), f(n - 1).tms)
  }

  function ClockedOn(s: Tap, at: Tap, f: nat -> Pins, n: nat): seq<bool> {
    if n == 0 then [] else ClockedOn(s, at, f, n - 1) + if WalkOn(s, f, n - 1) == at then [f(n - 1).tdi] else []
  }

  lemma {:induction false} WalkTabulated(s: Tap, at: Tap, f: nat -> Pins, n: nat)
    ensures Walk(s, Tabulate(f, 0, n)) == WalkOn(s, f, n)
    ensures Clocked(s, at, Tabulate(f, 0, n)) == ClockedOn(s, at, f, n)
  {
    if n > 0 {
      WalkTabulated(s, at, f, n - 1);
      var line := Tabulate(f, 0, n);
      assert line[..n - 1] == Tabulate(f, 0, n - 1) && line[n - 1] == f(n - 1);
    }
  }

  // ----- the lines -----------------------------------------------------------------------------------

  /** A TMS sequence: lowest bit first, TDI high. */
  function TmsLine(states: nat): nat -> Pins { (i: nat) => Pins(Bit(states, i), true) }

  /** A data shift: TMS low but for the last bit, if asked. */
  function DataLine(data: seq<byte>, n: nat, final: bool): nat -> Pins {
    (i: nat) => Pins(final && i + 1 >= n, BitAt(data, i))
  }

  function DataBit(data: seq<byte>): nat -> bool { (i: nat) => BitAt(data, i) }

  lemma {:induction false} BitsOfSmall(i: nat)
    ensures Bit(1, i) == (i == 0) && Bit(3, i) == (i < 2) && Bit(0x1f, i) == (i < 5)
  {
    if i > 0 { BitOfZero(i - 1); }
    if i > 1 { BitOfZero(i - 2); }
    if i > 4 {
      assert Bit(0x1f, i) == Bit(0xf, i - 1) == Bit(7, i - 2) == Bit(3, i - 3) == Bit(1, i - 4) == Bit(0, i - 5);
      BitOfZero(i - 5);
    } else if i == 4 {
      assert Bit(0x1f, 4) == Bit(0xf, 3) == Bit(7, 2) == Bit(3, 1) == Bit(1, 0);
    }
  }

  function ShiftState(ir: bool): Tap { if ir then ShiftIR else ShiftDR }
  function ExitState(ir: bool): Tap { if ir then Exit1IR else Exit1DR }
  function UpdateState(ir: bool): Tap { if ir then UpdateIR else UpdateDR }

  /** `jtagtap_shift_ir` and `jtagtap_shift_dr`. */
  function EntryLine(ir: bool): seq<Pins> {
    if ir then Tabulate(TmsLine(0x03), 0, 4) else Tabulate(TmsLine(0x01), 0, 3)
  }

  /** `jtagtap_return_idle`. */
  function ExitLine(cycles: nat): seq<Pins> { Tabulate(TmsLine(0x01), 0, cycles + 1) }

  /** Entering the shift state clocks nothing into it. */
  lemma {:induction false} Entry(ir: bool)
    ensures Walk(Idle, EntryLine(ir)) == ShiftState(ir)
    ensures Clocked(Idle, ShiftState(ir), EntryLine(ir)) == []
  {
    if ir { EntryIR(); } else { EntryDR(); }
  }

  lemma {:induction false} EntryDR()
    ensures Walk(Idle, Tabulate(TmsLine(0x01), 0, 3)) == ShiftDR
    ensures Clocked(Idle, ShiftDR, Tabulate(TmsLine(0x01), 0, 3)) == []
  {
    var f := TmsLine(0x01);
    BitsOfSmall(0);
    BitsOfSmall(1);
    BitsOfSmall(2);
    EntryDROn(f);
    WalkTabulated(Idle, ShiftDR, f, 3);
  }

  lemma {:induction false} EntryDROn(f: nat -> Pins)
    requires f(0).tms && !f(1).tms && !f(2).tms
    ensures WalkOn(Idle, f, 3) == ShiftDR && ClockedOn(Idle, ShiftDR, f, 3) == []
  {
    assert WalkOn(Idle, f, 1) == SelectDR && ClockedOn(Idle, ShiftDR, f, 1) == [];
    assert WalkOn(Idle, f, 2) == CaptureDR && ClockedOn(Idle, ShiftDR, f, 2) == [];
  }

  lemma {:induction false} EntryIR()
    ensures Walk(Idle, Tabulate(TmsLine(0x03), 0, 4)) == ShiftIR
    ensures Clocked(Idle, ShiftIR, Tabulate(TmsLine(0x03), 0, 4)) == []
  {
    var f := TmsLine(0x03);
    BitsOfSmall(0);
    BitsOfSmall(1);
    BitsOfSmall(2);
    BitsOfSmall(3);
    EntryIROn(f);
    WalkTabulated(Idle, ShiftIR, f, 4);
  }

  lemma {:induction false} EntryIROn(f: nat -> Pins)
    requires f(0).tms && f(1).tms && !f(2).tms && !f(3).tms
    ensures WalkOn(Idle, f, 4) == ShiftIR && ClockedOn(Idle, ShiftIR, f, 4) == []
  {
    assert WalkOn(Idle, f, 1) == SelectDR && ClockedOn(Idle, ShiftIR, f, 1) == [];
    assert WalkOn(Idle, f, 2) == SelectIR && ClockedOn(Idle, ShiftIR, f, 2) == [];
    assert WalkOn(Idle, f, 3) == CaptureIR && ClockedOn(Idle, ShiftIR, f, 3) == [];
  }

  /** TMS low stays in the shift state, and every bit is clocked. */
  lemma {:induction false} Shifting(ir: bool, f: nat -> Pins, bit: nat -> bool, k: nat)
    requires forall i: nat | i < k :: f(i) == Pins(false, bit(i))
    ensures WalkOn(ShiftState(ir), f, k) == ShiftState(ir)
    ensures ClockedOn(ShiftState(ir), ShiftState(ir), f, k) == Tabulate(bit, 0, k)
  {
    if k > 0 { Shifting(ir, f, bit, k - 1); }
  }

  /** A shift of `n` bits with TMS on the last leaves the shift state having clocked just those. */
  lemma {:induction false} ShiftOut(ir: bool, data: seq<byte>, n: nat)
    requires n > 0
    ensures Walk(ShiftState(ir), Tabulate(DataLine(data, n, true), 0, n)) == ExitState(ir)
    ensures Clocked(ShiftState(ir), ShiftState(ir), Tabulate(DataLine(data, n, true), 0, n))
        == Tabulate(DataBit(data), 0, n)
  {
    var f := DataLine(data, n, true);
    ShiftOutOn(ir, f, DataBit(data), n);
    WalkTabulated(ShiftState(ir), ShiftState(ir), f, n);
  }

  /** Without it the controller stays there, having clocked them all the same: a shift may be cut in two. */
  lemma {:induction false} ShiftStays(ir: bool, data: seq<byte>, n: nat)
    ensures Walk(ShiftState(ir), Tabulate(DataLine(data, n, false), 0, n)) == ShiftState(ir)
    ensures Clocked(ShiftState(ir), ShiftState(ir), Tabulate(DataLine(data, n, false), 0, n))
         == Tabulate(DataBit(data), 0, n)
  {
    var f := DataLine(data, n, false);
    Shifting(ir, f, DataBit(data), n);
    WalkTabulated(ShiftState(ir), ShiftState(ir), f, n);
  }

  lemma {:induction false} ShiftOutOn(ir: bool, f: nat -> Pins, bit: nat -> bool, n: nat)
    requires n > 0 && forall i: nat | i < n :: f(i) == Pins(i + 1 == n, bit(i))
    ensures WalkOn(ShiftState(ir), f, n) == ExitState(ir)
    ensures ClockedOn(ShiftState(ir), ShiftState(ir), f, n) == Tabulate(bit, 0, n)
  {
    Shifting(ir, f, bit, n - 1);
  }

  lemma {:induction false} LeavingOn(ir: bool, f: nat -> Pins, n: nat)
    requires n > 0 && forall i: nat :: f(i).tms == (i == 0)
    ensures WalkOn(ExitState(ir), f, n) == if n == 1 then UpdateState(ir) else Idle
    ensures ClockedOn(ExitState(ir), ShiftState(ir), f, n) == []
  {
    if n > 1 { LeavingOn(ir, f, n - 1); } else { assert WalkOn(ExitState(ir), f, 0) == ExitState(ir); }
  }

  lemma {:induction false} Leaving(ir: bool, cycles: nat)
    ensures Walk(ExitState(ir), ExitLine(cycles)) == if cycles == 0 then UpdateState(ir) else Idle
    ensures |ExitLine(cycles)| == 1 + cycles
    ensures Clocked(ExitState(ir), ShiftState(ir), ExitLine(cycles)) == []
  {
    var f := TmsLine(0x01);
    forall i: nat ensures f(i).tms == (i == 0) { BitsOfSmall(i); }
    LeavingTabulated(ir, f, cycles + 1);
  }

  lemma {:induction false} LeavingTabulated(ir: bool, f: nat -> Pins, n: nat)
    requires n > 0 && forall i: nat :: f(i).tms == (i == 0)
    ensures Walk(ExitState(ir), Tabulate(f, 0, n)) == if n == 1 then UpdateState(ir) else Idle
    ensures Clocked(ExitState(ir), ShiftState(ir), Tabulate(f, 0, n)) == []
  {
    LeavingOn(ir, f, n);
    WalkTabulated(ExitState(ir), ShiftState(ir), f, n);
  }

  function ScanLine(ir: bool, data: seq<byte>, n: nat, cycles: nat): seq<Pins> {
    EntryLine(ir) + Tabulate(DataLine(data, n, true), 0, n) + ExitLine(cycles)
  }

  /** A scan from Run-Test/Idle clocks exactly the `n` bits of the data, in order, and is back in
      Run-Test/Idle if and only if it returns with at least one cycle. */
  lemma {:induction false} Scan(ir: bool, data: seq<byte>, n: nat, cycles: nat)
    requires n > 0
    ensures Clocked(Idle, ShiftState(ir), ScanLine(ir, data, n, cycles)) == Tabulate(DataBit(data), 0, n)
    ensures Walk(Idle, ScanLine(ir, data, n, cycles)) == Idle <==> cycles > 0
  {
    var a, b, c, at := EntryLine(ir), Tabulate(DataLine(data, n, true), 0, n), ExitLine(cycles), ShiftState(ir);
    Entry(ir);
    ShiftOut(ir, data, n);
    Leaving(ir, cycles);
    ThreeWalks(at, a, b, c);
  }

  lemma {:induction false} ThreeWalks(at: Tap, a: seq<Pins>, b: seq<Pins>, c: seq<Pins>)
    ensures Walk(Idle, a + b + c) == Walk(Walk(Walk(Idle, a), b), c)
    ensures Clocked(Idle, at, a + b + c)
         == Clocked(Idle, at, a) + Clocked(Walk(Idle, a), at, b) + Clocked(Walk(Walk(Idle, a), b), at, c)
  {
    WalkThen(Idle, at, a, b);
    WalkThen(Idle, at, a + b, c);
  }

  /** Five ones reach Test-Logic-Reset from anywhere; the zero after them idles. */
  lemma {:induction false} SoftReset(s: Tap)
    ensures Walk(s, Tabulate(TmsLine(0x1f), 0, 6)) == Idle
  {
    var f := TmsLine(0x1f);
    forall i: nat ensures f(i).tms == (i < 5) { BitsOfSmall(i); }
    FiveOnes(s, f);
    WalkTabulated(s, s, f, 6);
  }

  lemma {:induction false} FiveOnes(s: Tap, f: nat -> Pins)
    requires forall i: nat :: f(i).tms == (i < 5)
    ensures WalkOn(s, f, 6) == Idle
  {
    assert WalkOn(s, f, 1) == Next(s, true);
    assert WalkOn(s, f, 2) == Next(WalkOn(s, f, 1), true);
    assert WalkOn(s, f, 3) == Next(WalkOn(s, f, 2), true);
    assert WalkOn(s, f, 4) == Next(WalkOn(s, f, 3), true);
    assert WalkOn(s, f, 5) == Next(WalkOn(s, f, 4), true);
    assert WalkOn(s, f, 6) == Next(WalkOn(s, f, 5), false);
    OnesReset(s);
  }

  lemma {:induction false} OnesReset(s: Tap)
    ensures Next(Next(Next(Next(Next(s, true), true), true), true), true) == Reset
  {
  }
}
