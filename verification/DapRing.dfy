/** The request ring between the USB endpoint and the DAP: eight packet slots, 8-bit pointers that
    wrap, and runs of queued commands that wait for the packet that ends them. */
module DapRing {
  import opened Common

  const SLOTS: nat := 8
  const QUEUE_COMMANDS: byte := 0x7e
  const EXECUTE_COMMANDS: byte := 0x7f
  const TRANSFER_ABORT: byte := 0x07

  /** `armed`: the OUT endpoint has been given the slot at the write pointer to fill. */
  datatype Ring = Ring(wp: byte, rp: byte, slots: seq<seq<byte>>, armed: bool)

  predicate IsQueue(packet: seq<byte>) { packet != [] && packet[0] == QUEUE_COMMANDS }

  function Execute(packet: seq<byte>): (r: seq<byte>)
    requires packet != []
    ensures |r| == |packet|
  {
    packet[0 := EXECUTE_COMMANDS]
  }

  function Inc(p: byte): byte { if p == 255 then 0 else p + 1 }

  /** The occupancy test: the operands are promoted, so a write pointer that has wrapped while the
      read pointer has not gives a huge unsigned difference. */
  predicate CanArm(r: Ring) { r.rp <= r.wp && r.wp - r.rp < SLOTS }

  function Arm(r: Ring): Ring { if !r.armed && CanArm(r) then r.(armed := true) else r }

  /** The endpoint has filled its slot. */
  function Receive(r: Ring, packet: seq<byte>): Ring
    requires r.armed && |r.slots| == SLOTS
  {
    var s := r.(armed := false);
    if packet == [] then Arm(s)
    else
      var filled := s.(slots := s.slots[s.wp % SLOTS := packet]);
      if packet[0] == TRANSFER_ABORT then Arm(filled) else Arm(filled.(wp := Inc(s.wp)))
  }

  /** Unread packets, as far as the pointers tell. */
  function Unread(wp: byte, rp: byte): nat { if rp <= wp then wp - rp else wp + 256 - rp }

  /** The read pointer past the leading run of queued commands. */
  function PastQueue(slots: seq<seq<byte>>, wp: byte, rp: byte): byte
    requires |slots| == SLOTS
    decreases Unread(wp, rp)
  {
    if wp != rp && IsQueue(slots[rp % SLOTS]) then PastQueue(slots, wp, Inc(rp)) else rp
  }

  /** The leading run of queued commands, made executable. */
  function Executed(slots: seq<seq<byte>>, wp: byte, rp: byte): (r: seq<seq<byte>>)
    requires |slots| == SLOTS
    ensures |r| == SLOTS
    decreases Unread(wp, rp)
  {
    if wp != rp && IsQueue(slots[rp % SLOTS])
    then Executed(slots[rp % SLOTS := Execute(slots[rp % SLOTS])], wp, Inc(rp))
    else slots
  }

  predicate Ready(r: Ring)
    requires |r.slots| == SLOTS
  {
    PastQueue(r.slots, r.wp, r.rp) != r.wp
  }

  function Acquire(r: Ring): Ring
    requires |r.slots| == SLOTS
  {
    if Ready(r) then r.(slots := Executed(r.slots, r.wp, r.rp)) else r
  }

  function Release(r: Ring): Ring { Arm(r.(rp := Inc(r.rp))) }

  // ----- what it stands for -----------------------------------------------------------------------------

  /** A non-queue packet came after packet `i`. */
  predicate Ended(log: seq<seq<byte>>, i: nat) { exists j | i <= j < |log| :: !IsQueue(log[j]) }

  /** A slot holds packet `i` as it came, or made executable after the run it belongs to has ended. */
  predicate Holds(slot: seq<byte>, log: seq<seq<byte>>, i: nat)
    requires i < |log|
  {
    slot == log[i] || (IsQueue(log[i]) && Ended(log, i) && slot == Execute(log[i]))
  }

  predicate Logged(log: seq<seq<byte>>) { forall i | 0 <= i < |log| :: log[i] != [] && log[i][0] != TRANSFER_ABORT }

  /** `log` is every packet that came, `read` how many have been released. At most eight are unread;
      and the endpoint is armed exactly where the occupancy test holds. */
  predicate Inv(r: Ring, log: seq<seq<byte>>, read: nat) {
    && |r.slots| == SLOTS && Logged(log)
    && read <= |log| <= read + SLOTS && r.wp == |log| % 256 && r.rp == read % 256
    && (forall i | read <= i < |log| :: Holds(r.slots[i % SLOTS], log, i))
    && r.armed == CanArm(r)
  }

  /** The slot being filled is never that of an unread packet. */
  lemma {:induction false} ArmedSlotIsFree(r: Ring, log: seq<seq<byte>>, read: nat, i: nat)
    requires Inv(r, log, read) && r.armed && read <= i < |log|
    ensures i % SLOTS != r.wp % SLOTS
  {
    CanArmIff(r, log, read);
    ModMod(|log|);
    SameSlot(i, |log|);
  }

  lemma {:induction false} ModMod(n: nat)
    ensures n % 256 % SLOTS == n % SLOTS
  {
    var q, s := n / 256, n % 256;
    assert n == 8 * (32 * q + s / 8) + s % 8;
  }

  lemma {:induction false} SameSlot(i: nat, j: nat)
    requires i < j < i + SLOTS
    ensures i % SLOTS != j % SLOTS
  {
  }

  lemma {:induction false} IncMod(n: nat)
    ensures Inc(n % 256) == (n + 1) % 256
  {
  }

  /** The occupancy test in terms of the packets: there is room, and the two pointers are in the same
      run of 256. */
  lemma {:induction false} CanArmIff(r: Ring, log: seq<seq<byte>>, read: nat)
    requires read <= |log| <= read + SLOTS && r.wp == |log| % 256 && r.rp == read % 256
    ensures CanArm(r) <==> |log| < read + SLOTS && |log| / 256 == read / 256
  {
    var a, b := |log|, read;
    assert a == 256 * (a / 256) + a % 256 && b == 256 * (b / 256) + b % 256;
  }

  lemma {:induction false} UnreadIs(a: nat, b: nat)
    requires b <= a <= b + SLOTS
    ensures Unread(a % 256, b % 256) == a - b
  {
    assert a == 256 * (a / 256) + a % 256 && b == 256 * (b / 256) + b % 256;
  }

  // ----- the leading run ----------------------------------------------------------------------------------

  /** The first packet from `i` on that is not a queued command. */
  function First(slots: seq<seq<byte>>, i: nat, n: nat): (k: nat)
    requires |slots| == SLOTS && i <= n
    ensures i <= k <= n
    ensures forall j | i <= j < k :: IsQueue(slots[j % SLOTS])
    ensures k < n ==> !IsQueue(slots[k % SLOTS])
    decreases n - i
  {
    if i < n && IsQueue(slots[i % SLOTS]) then First(slots, i + 1, n) else i
  }

  lemma {:induction false} PointersMeet(a: nat, b: nat)
    requires b <= a <= b + SLOTS
    ensures a % 256 == b % 256 <==> a == b
  {
    UnreadIs(a, b);
  }

  lemma {:induction false} PastQueueIs(slots: seq<seq<byte>>, i: nat, n: nat)
    requires |slots| == SLOTS && i <= n <= i + SLOTS
    ensures PastQueue(slots, n % 256, i % 256) == First(slots, i, n) % 256
    decreases n - i
  {
    PointersMeet(n, i);
    ModMod(i);
    if i < n && IsQueue(slots[i % SLOTS]) {
      IncMod(i);
      PastQueueIs(slots, i + 1, n);
    }
  }

  lemma {:induction false} ExecutedStep(slots: seq<seq<byte>>, wp: byte, p: byte)
    requires |slots| == SLOTS && wp != p && IsQueue(slots[p % SLOTS])
    ensures Executed(slots[p % SLOTS := Execute(slots[p % SLOTS])], wp, Inc(p)) == Executed(slots, wp, p)
  {
  }

  lemma {:induction false} NextSlot(p: byte)
    ensures Inc(p) % SLOTS == if p % SLOTS + 1 == SLOTS then 0 else p % SLOTS + 1
  {
    var q, n := p / 8, p % 8;
    if n < 7 { Mod8(p + 1, q, n + 1); } else { Mod8(p + 1, q + 1, 0); }
  }

  lemma {:induction false} Mod8(x: nat, q: nat, r: nat)
    requires x == 8 * q + r && r < 8
    ensures x % 8 == r
  {
  }

  /** Beyond the run nothing is touched, and within it every packet is made executable. */
  lemma {:induction false} ExecutedIs(slots: seq<seq<byte>>, i: nat, n: nat, j: nat)
    requires |slots| == SLOTS && i <= n <= i + SLOTS && n <= j + SLOTS && j < n
    ensures Executed(slots, n % 256, i % 256)[j % SLOTS]
      == if i <= j < First(slots, i, n) then Execute(slots[j % SLOTS]) else slots[j % SLOTS]
    decreases n - i
  {
    PointersMeet(n, i);
    ModMod(i);
    if i < n && IsQueue(slots[i % SLOTS]) {
      IncMod(i);
      var next := slots[i % SLOTS := Execute(slots[i % SLOTS])];
      ExecutedIs(next, i + 1, n, j);
      FirstKept(slots, next, i, i + 1, n);
      if j != i { if j < i { SameSlot(j, i); } else { SameSlot(i, j); } }
    }
  }

  /** Rewriting slot `i` does not move the end of the run after it. */
  lemma {:induction false} FirstKept(slots: seq<seq<byte>>, next: seq<seq<byte>>, i: nat, k: nat, n: nat)
    requires |slots| == |next| == SLOTS && i < k <= n <= i + SLOTS
    requires forall m | 0 <= m < SLOTS && m != i % SLOTS :: next[m] == slots[m]
    ensures First(next, k, n) == First(slots, k, n)
    decreases n - k
  {
    if k < n {
      SameSlot(i, k);
      FirstKept(slots, next, i, k + 1, n);
    }
  }

  /** A packet is ready exactly when a non-queue packet is among the unread. */
  lemma {:induction false} ReadyIff(r: Ring, log: seq<seq<byte>>, read: nat)
    requires Inv(r, log, read)
    ensures Ready(r) <==> Ended(log, read)
    ensures Ready(r) <==> First(r.slots, read, |log|) < |log|
  {
    var n := |log|;
    var k := First(r.slots, read, n);
    PastQueueIs(r.slots, read, n);
    PointersMeet(n, k);
    if k < n {
      assert Holds(r.slots[k % SLOTS], log, k);
      SlotEnds(r.slots[k % SLOTS], log, read, k);
    } else {
      forall j | read <= j < n ensures IsQueue(log[j]) {
        assert Holds(r.slots[j % SLOTS], log, j) && IsQueue(r.slots[j % SLOTS]);
      }
    }
  }

  /** A slot that is not a queued command shows that the run has ended. */
  lemma {:induction false} SlotEnds(slot: seq<byte>, log: seq<seq<byte>>, read: nat, k: nat)
    requires read <= k < |log| && Holds(slot, log, k) && !IsQueue(slot)
    ensures Ended(log, read)
  {
    if slot == log[k] {
      assert !IsQueue(log[k]);
    } else {
      var j :| k <= j < |log| && !IsQueue(log[j]);
    }
  }

  // ----- every step keeps the invariant -----------------------------------------------------------------

  lemma {:induction false} EndedMore(log: seq<seq<byte>>, more: seq<seq<byte>>, i: nat)
    requires log <= more && Ended(log, i)
    ensures Ended(more, i)
  {
    var j :| i <= j < |log| && !IsQueue(log[j]);
    assert !IsQueue(more[j]);
  }

  lemma {:induction false} HoldsMore(slot: seq<byte>, log: seq<seq<byte>>, packet: seq<byte>, i: nat)
    requires i < |log| && Holds(slot, log, i)
    ensures Holds(slot, log + [packet], i)
  {
    if slot != log[i] { EndedMore(log, log + [packet], i); }
  }

  function Arrived(log: seq<seq<byte>>, packet: seq<byte>): seq<seq<byte>> {
    if packet == [] || packet[0] == TRANSFER_ABORT then log else log + [packet]
  }

  lemma {:induction false} ReceiveKeeps(r: Ring, log: seq<seq<byte>>, read: nat, packet: seq<byte>)
    requires Inv(r, log, read) && r.armed
    ensures Inv(Receive(r, packet), Arrived(log, packet), read)
  {
    var n := |log|;
    CanArmIff(r, log, read);
    ModMod(n);
    IncMod(n);
    var after, all := Receive(r, packet), Arrived(log, packet);
    forall i | read <= i < |all| ensures Holds(after.slots[i % SLOTS], all, i) {
      if i < n {
        ArmedSlotIsFree(r, log, read, i);
        assert Holds(r.slots[i % SLOTS], log, i);
        if |all| > n { HoldsMore(r.slots[i % SLOTS], log, packet, i); }
      }
    }
    CanArmIff(after, all, read);
  }

  lemma {:induction false} AcquireKeeps(r: Ring, log: seq<seq<byte>>, read: nat)
    requires Inv(r, log, read)
    ensures Inv(Acquire(r), log, read)
  {
    ReadyIff(r, log, read);
    if Ready(r) {
      var after, n := Acquire(r), |log|;
      forall i | read <= i < n ensures Holds(after.slots[i % SLOTS], log, i) {
        assert Holds(r.slots[i % SLOTS], log, i);
        ExecutedIs(r.slots, read, n, i);
        if i < First(r.slots, read, n) { RunEnded(r, log, read, i); }
      }
    }
  }

  lemma {:induction false} RunEnded(r: Ring, log: seq<seq<byte>>, read: nat, i: nat)
    requires Inv(r, log, read) && read <= i < First(r.slots, read, |log|) < |log|
    ensures IsQueue(log[i]) && r.slots[i % SLOTS] == log[i] && Ended(log, i)
  {
    var k := First(r.slots, read, |log|);
    assert Holds(r.slots[i % SLOTS], log, i) && IsQueue(r.slots[i % SLOTS]);
    assert Holds(r.slots[k % SLOTS], log, k);
    SlotEnds(r.slots[k % SLOTS], log, i, k);
  }

  lemma {:induction false} ReleaseKeeps(r: Ring, log: seq<seq<byte>>, read: nat)
    requires Inv(r, log, read) && read < |log|
    ensures Inv(Release(r), log, read + 1)
  {
    IncMod(read);
    CanArmIff(r, log, read);
    CanArmIff(Release(r), log, read + 1);
    assert |log| / 256 == read / 256 ==> |log| / 256 == (read + 1) / 256;
  }

  /** What is handed out: the oldest unread packet, a queued command having become executable. */
  function Handed(packet: seq<byte>): seq<byte> { if IsQueue(packet) then Execute(packet) else packet }

  /** A queued command becomes executable by its first byte, 0x7e, being made 0x7f; nothing else of any packet
      changes. */
  lemma {:induction false} HandedIs(packet: seq<byte>)
    requires packet != []
    ensures |Handed(packet)| == |packet| && forall k | 1 <= k < |packet| :: Handed(packet)[k] == packet[k]
    ensures Handed(packet)[0] == if packet[0] == 0x7e then 0x7f else packet[0]
  {
  }

  lemma {:induction false} AcquireHands(r: Ring, log: seq<seq<byte>>, read: nat)
    requires Inv(r, log, read) && Ready(r)
    ensures read < |log| && Acquire(r).slots[r.rp % SLOTS] == Handed(log[read])
  {
    var n := |log|;
    ReadyIff(r, log, read);
    ModMod(read);
    assert Holds(r.slots[read % SLOTS], log, read);
    ExecutedIs(r.slots, read, n, read);
  }

  // ----- runs ---------------------------------------------------------------------------------------------

  /** The host sends, which only an armed endpoint takes; the DAP looks; or it looks, and if it is given
      a packet, deals with it and releases it. */
  datatype Op = Send(packet: seq<byte>) | Peek | Take

  /** `log` is all that was taken from the host but aborts, `given` all that was handed to the DAP. */
  datatype System = System(ring: Ring, log: seq<seq<byte>>, given: seq<seq<byte>>)

  const FRESH: System := System(Ring(0, 0, [[], [], [], [], [], [], [], []], true), [], [])

  function Step(s: System, op: Op): System
    requires |s.ring.slots| == SLOTS
  {
    match op
    case Send(packet) => if s.ring.armed then System(Receive(s.ring, packet), Arrived(s.log, packet), s.given) else s
    case Peek => s.(ring := Acquire(s.ring))
    case Take =>
      if !Ready(s.ring) then s
      else
        var r := Acquire(s.ring);
        System(Release(r), s.log, s.given + [r.slots[r.rp % SLOTS]])
  }

  function Run(s: System, ops: seq<Op>): (r: System)
    requires |s.ring.slots| == SLOTS
    ensures |r.ring.slots| == SLOTS
  {
    if ops == [] then s else Step(Run(s, ops[..|ops| - 1]), ops[|ops| - 1])
  }

  /** The packets handed over are those that came, in order. */
  predicate Good(s: System) {
    && Inv(s.ring, s.log, |s.given|)
    && forall i | 0 <= i < |s.given| :: s.given[i] == Handed(s.log[i])
  }

  lemma {:induction false} StepGood(s: System, op: Op)
    requires Good(s)
    ensures Good(Step(s, op))
  {
    match op {
      case Send(packet) => if s.ring.armed { ReceiveKeeps(s.ring, s.log, |s.given|, packet); }
      case Peek => AcquireKeeps(s.ring, s.log, |s.given|);
      case Take =>
        if Ready(s.ring) {
          AcquireKeeps(s.ring, s.log, |s.given|);
          AcquireHands(s.ring, s.log, |s.given|);
          ReleaseKeeps(Acquire(s.ring), s.log, |s.given|);
        }
    }
  }

  /** Every reachable state: at most eight packets unread, none overwritten, and what the DAP was given
      is what came, in order, across any number of pointer wraps. */
  lemma {:induction false} RunGood(ops: seq<Op>)
    ensures Good(Run(FRESH, ops))
  {
    if ops != [] {
      RunGood(ops[..|ops| - 1]);
      StepGood(Run(FRESH, ops[..|ops| - 1]), ops[|ops| - 1]);
    }
  }

  /** The packets that arrived in a run: those sent when the endpoint was armed, but for empty ones and aborts
      (command 0x07). */
  function Came(s: System, ops: seq<Op>): seq<seq<byte>>
    requires |s.ring.slots| == SLOTS
  {
    if ops == [] then []
    else
      var front, op := ops[..|ops| - 1], ops[|ops| - 1];
      Came(s, front)
      + if op.Send? && Run(s, front).ring.armed && op.packet != [] && op.packet[0] != 7 then [op.packet] else []
  }

  /** The log has all of them, in order. */
  lemma {:induction false} LogIs(s: System, ops: seq<Op>)
    requires |s.ring.slots| == SLOTS
    ensures Run(s, ops).log == s.log + Came(s, ops)
  {
    if ops != [] {
      var front, op := ops[..|ops| - 1], ops[|ops| - 1];
      LogIs(s, front);
      StepLog(Run(s, front), op);
    }
  }

  lemma {:induction false} StepLog(s: System, op: Op)
    requires |s.ring.slots| == SLOTS
    ensures Step(s, op).log
         == s.log + if op.Send? && s.ring.armed && op.packet != [] && op.packet[0] != 7 then [op.packet] else []
  {
  }

  /** The DAP is given a packet by each take that finds a non-queue packet unread, and by nothing else. */
  lemma {:induction false} StepGives(s: System, op: Op)
    requires Good(s)
    ensures |Step(s, op).given| == |s.given| + if op.Take? && Ended(s.log, |s.given|) then 1 else 0
  {
    ReadyIff(s.ring, s.log, |s.given|);
  }

  // ----- where it stops -------------------------------------------------------------------------------------

  predicate Stalled(s: System) { !s.ring.armed && !Ended(s.log, |s.given|) }

  predicate Moves(s: System, op: Op)
    requires |s.ring.slots| == SLOTS
  {
    Step(s, op).log != s.log || Step(s, op).given != s.given
  }

  /** Nothing can be sent or taken any more exactly when all that is unread are queued commands and
      either the ring is full of them or they lie across a wrap of the pointers. */
  lemma {:induction false} StalledIff(s: System)
    requires Good(s)
    ensures Stalled(s) <==> forall op :: !Moves(s, op)
    ensures Stalled(s)
        <==> !Ended(s.log, |s.given|) && (|s.log| == |s.given| + SLOTS || |s.log| / 256 != |s.given| / 256)
  {
    ReadyIff(s.ring, s.log, |s.given|);
    CanArmIff(s.ring, s.log, |s.given|);
    if s.ring.armed { assert Moves(s, Send([0])); }
    if Ready(s.ring) { assert Moves(s, Take); }
  }

  lemma {:induction false} StalledForever(s: System, ops: seq<Op>)
    requires Good(s) && Stalled(s)
    ensures Run(s, ops) == s
  {
    ReadyIff(s.ring, s.log, |s.given|);
    if ops != [] { StalledForever(s, ops[..|ops| - 1]); }
  }

  function Exchanges(n: nat): seq<Op> { if n == 0 then [] else Exchanges(n - 1) + [Send([0])] + [Take] }

  lemma {:induction false} RunMore(s: System, ops: seq<Op>, op: Op)
    requires |s.ring.slots| == SLOTS
    ensures Run(s, ops + [op]) == Step(Run(s, ops), op)
  {
    assert (ops + [op])[..|ops|] == ops;
  }

  /** An empty ring always has its endpoint armed. */
  lemma {:induction false} EmptyArmed(s: System)
    requires Good(s) && |s.log| == |s.given|
    ensures s.ring.armed
  {
    CanArmIff(s.ring, s.log, |s.given|);
  }

  lemma {:induction false} Exchanged(s: System, n: nat)
    requires Good(s) && |s.log| == |s.given|
    ensures var t := Run(s, Exchanges(n)); Good(t) && |t.log| == |t.given| == |s.log| + n
  {
    if n > 0 {
      var ops, packet := Exchanges(n - 1), [0];
      Exchanged(s, n - 1);
      RunMore(s, ops, Send(packet));
      RunMore(s, ops + [Send(packet)], Take);
      SendTaken(Run(s, ops), packet);
    }
  }

  /** A single packet goes through an empty ring. */
  lemma {:induction false} SendTaken(s: System, packet: seq<byte>)
    requires Good(s) && |s.log| == |s.given| && packet != [] && packet[0] != TRANSFER_ABORT && !IsQueue(packet)
    ensures |Step(s, Send(packet)).ring.slots| == SLOTS
    ensures var u := Step(Step(s, Send(packet)), Take); Good(u) && |u.log| == |u.given| == |s.log| + 1
  {
    EmptyArmed(s);
    StepGood(s, Send(packet));
    TakeEnded(Step(s, Send(packet)), |s.log|);
  }

  lemma {:induction false} TakeEnded(t: System, n: nat)
    requires Good(t) && |t.given| == n && |t.log| == n + 1 && !IsQueue(t.log[n])
    ensures Good(Step(t, Take)) && |Step(t, Take).given| == n + 1 && Step(t, Take).log == t.log
  {
    ReadyIff(t.ring, t.log, n);
    StepGood(t, Take);
  }

  /** Two queued commands as packets 255 and 256 are enough. */
  lemma {:induction false} TwoQueuedStall()
    ensures var s := Run(FRESH, Exchanges(254) + [Send([QUEUE_COMMANDS])] + [Send([QUEUE_COMMANDS])]);
            Good(s) && Stalled(s) && |s.log| == |s.given| + 2
  {
    var ops, q := Exchanges(254), Send([QUEUE_COMMANDS]);
    RunGood([]);
    Exchanged(FRESH, 254);
    RunMore(FRESH, ops, q);
    RunMore(FRESH, ops + [q], q);
    TwoQueued(Run(FRESH, ops));
  }

  lemma {:induction false} TwoQueued(s: System)
    requires Good(s) && |s.log| == |s.given| == 254
    ensures var q := Send([QUEUE_COMMANDS]); var t := Step(s, q); |t.ring.slots| == SLOTS
    ensures var q := Send([QUEUE_COMMANDS]); var u := Step(Step(s, q), q);
            Good(u) && Stalled(u) && |u.log| == |u.given| + 2
  {
    var q := Send([QUEUE_COMMANDS]);
    EmptyArmed(s);
    StepGood(s, q);
    var t := Step(s, q);
    CanArmIff(t.ring, t.log, 254);
    StepGood(t, q);
    var u := Step(t, q);
    assert u.log[254] == [QUEUE_COMMANDS] && u.log[255] == [QUEUE_COMMANDS];
    StalledIff(u);
  }

  // ----- the code -------------------------------------------------------------------------------------------

  class Requests {
    var wp: byte
    var rp: byte
    const buf: array<seq<byte>>
    var armed: bool

    constructor ()
      ensures Valid() && Value() == FRESH.ring && fresh(buf)
    {
      wp, rp, armed := 0, 0, true;
      buf := new seq<byte>[SLOTS](_ => []);
    }

    ghost predicate Valid()
      reads this
    {
      buf.Length == SLOTS
    }

    ghost function Value(): Ring
      reads this, buf
    {
      Ring(wp, rp, buf[..], armed)
    }

    method PrepOut()
      requires Valid()
      modifies this
      ensures Valid() && Value() == Arm(old(Value()))
    {
      if armed { return; }
      var occupancy := wp - rp;
      if occupancy < 0 { occupancy := occupancy + 0x1_0000_0000; }
      if occupancy < SLOTS { armed := true; }
    }

    method OnOut(packet: seq<byte>)
      requires Valid() && armed
      modifies this, buf
      ensures Valid() && Value() == Receive(old(Value()), packet)
    {
      armed := false;
      if packet != [] {
        buf[wp % SLOTS] := packet;
        if packet[0] != TRANSFER_ABORT { wp := Inc(wp); }
      }
      PrepOut();
    }

    /** Walk over the leading run. */
    method SkipQueue() returns (p: byte)
      requires Valid()
      ensures p == PastQueue(buf[..], wp, rp)
    {
      p := rp;
      var n := p % SLOTS;
      while wp != p && IsQueue(buf[n])
        invariant n == p % SLOTS && PastQueue(buf[..], wp, p) == PastQueue(buf[..], wp, rp)
        decreases Unread(wp, p)
      {
        NextSlot(p);
        p := Inc(p);
        n := n + 1;
        if n == SLOTS { n := 0; }
      }
    }

    /** Make the leading run executable. */
    method ExecuteQueue()
      requires Valid()
      modifies buf
      ensures buf[..] == Executed(old(buf[..]), wp, rp)
    {
      var p: byte := rp;
      var n := p % SLOTS;
      while wp != p && IsQueue(buf[n])
        invariant n == p % SLOTS && Executed(buf[..], wp, p) == Executed(old(buf[..]), wp, rp)
        decreases Unread(wp, p)
      {
        ghost var before := buf[..];
        ExecutedStep(before, wp, p);
        buf[n] := Execute(buf[n]);
        assert buf[..] == before[n := Execute(before[n])];
        NextSlot(p);
        p := Inc(p);
        n := n + 1;
        if n == SLOTS { n := 0; }
      }
    }

    method AcquireRequest() returns (r: Option<seq<byte>>)
      requires Valid()
      modifies buf
      ensures Valid() && Value() == Acquire(old(Value()))
      ensures r == if Ready(old(Value())) then Some(Value().slots[rp % SLOTS]) else None
    {
      if wp == rp { return None; }
      var p := SkipQueue();
      if wp == p { return None; }
      ExecuteQueue();
      r := Some(buf[rp % SLOTS]);
    }

    method ReleaseRequest()
      requires Valid()
      modifies this
      ensures Valid() && Value() == Release(old(Value()))
    {
      rp := Inc(rp);
      PrepOut();
    }
  }
}
