/** Whole runs of the mass-storage callbacks: the cache refines a plain array of sectors, and
    what stays resident is what was written most recently. */
module SectorCacheRuns {
  import opened Common
  import opened SectorCache

  datatype Op =
    | Read(lba: nat, offset: nat, n: nat, readOk: bool)
    | Write(lba: nat, offset: nat, data: seq<byte>, evict: Flush, load: Load)
    | Sync(outcomes: nat -> Flush)
    | StartStop(start: bool, loadEject: bool, outcomes: nat -> Flush)

  datatype Reply = Failed | Done(data: seq<byte>)

  /** The code's range test, on 32-bit values, means what it says. */
  predicate Contained(count: nat, bs: nat, op: Op) {
    match op
    case Read(lba, offset, n, _) => offset < U32 && n < U32 && !SlipsThrough(count, bs, lba, offset, n)
    case Write(lba, offset, data, _, _) =>
      offset < U32 && |data| < U32 && !SlipsThrough(count, bs, lba, offset, |data|)
    case _ => true
  }

  function Step(st: State, op: Op): (State, Reply)
    requires Inv(st)
  {
    match op
    case Read(lba, offset, n, readOk) =>
      var r := Read10(st, lba, offset, n, readOk);
      (st, if r.Some? then Done(r.value) else Failed)
    case Write(lba, offset, data, evict, load) =>
      var (r, ok) := Write10(st, lba, offset, data, evict, load);
      (r, if ok then Done([]) else Failed)
    case Sync(outcomes) => (FlushFrom(st, 0, outcomes), Done([]))
    case StartStop(start, loadEject, outcomes) =>
      (if loadEject && !start then FlushFrom(st, 0, outcomes) else st, Done([]))
  }

  /** The reference: an array of sectors that accepted writes, and nothing else, change. */
  function PlainStep(disk: seq<Sector>, op: Op, reply: Reply): seq<Sector> {
    if op.Write? && reply.Done? && op.lba < |disk| && op.offset + |op.data| <= |disk[op.lba]|
    then disk[op.lba := Patch(disk[op.lba], op.offset, op.data)]
    else disk
  }

  predicate InRange(disk: seq<Sector>, lba: nat, offset: nat, n: nat) {
    lba < |disk| && offset + n <= |disk[lba]|
  }

  /** Which callbacks succeed: in range, and whatever of flash they need is read. A sector in the cache
      needs nothing, nor does a write of a whole sector. */
  predicate Succeeds(disk: seq<Sector>, cached: bool, op: Op) {
    match op
    case Read(lba, offset, n, readOk) => InRange(disk, lba, offset, n) && (cached || readOk)
    case Write(lba, offset, data, _, load) =>
      && InRange(disk, lba, offset, |data|)
      && (cached || (offset == 0 && |data| == |disk[lba]|) || load.Loaded?)
    case _ => true
  }

  predicate Answers(disk: seq<Sector>, cached: bool, op: Op, reply: Reply) {
    && (reply.Done? <==> Succeeds(disk, cached, op))
    && (op.Read? && reply.Done? ==> reply.data == disk[op.lba][op.offset..op.offset + op.n])
  }

  predicate Cached(st: State, op: Op) { (op.Read? || op.Write?) && Holds(st.slots, op.lba) }

  predicate Safe(st: State, op: Op)
    requires |st.slots| > 0
  {
    && Contained(|st.flash|, st.bs, op)
    && (op.Write? && Accepts(st, op.lba, op.offset, |op.data|) ==> !EvictionLost(st, op.lba, op.evict))
  }

  lemma {:induction false} FlushFromEffect(st: State, i: nat, outcomes: nat -> Flush)
    requires Inv(st)
    ensures var r := FlushFrom(st, i, outcomes);
      && Overlay(r) == Overlay(st) && r.clock == st.clock && r.bs == st.bs && |r.flash| == |st.flash|
      && (forall j | 0 <= j < |st.slots| ::
            && r.slots[j] == st.slots[j].(dirty := r.slots[j].dirty)
            && (r.slots[j].dirty <==> st.slots[j].dirty && (j < i || !outcomes(j).Flushed?)))
    decreases |st.slots| - i
  {
    if i < |st.slots| {
      FlushKeepsOverlay(st, i, outcomes(i));
      var st1 := FlushSlot(st, i, outcomes(i)).0;
      FlushFromEffect(st1, i + 1, outcomes);
      var r := FlushFrom(st, i, outcomes);
      forall j | 0 <= j < |st.slots|
        ensures r.slots[j] == st.slots[j].(dirty := r.slots[j].dirty)
        ensures r.slots[j].dirty <==> st.slots[j].dirty && (j < i || !outcomes(j).Flushed?)
      {
        assert st1.slots[j] == st.slots[j].(dirty := st1.slots[j].dirty);
      }
    }
  }

  /** After a sync (or an eject) each of whose flushes succeeds, flash alone is the disk. */
  lemma {:induction false} SyncMakesFlashTheDisk(st: State, outcomes: nat -> Flush)
    requires Inv(st) && AllFlush(st, outcomes)
    ensures var r := FlushFrom(st, 0, outcomes);
      && r.flash == Overlay(st)
      && forall i | 0 <= i < |r.slots| :: !r.slots[i].dirty
  {
    FlushFromEffect(st, 0, outcomes);
    var r := FlushFrom(st, 0, outcomes);
    forall l | 0 <= l < |r.flash|
      ensures r.flash[l] == Overlay(r)[l]
    {
      OverlayAt(r, l, Find(r.slots, l));
    }
  }

  lemma {:induction false} ReadAnswers(st: State, lba: nat, offset: nat, n: nat, readOk: bool)
    requires Inv(st)
    ensures var r := Read10(st, lba, offset, n, readOk);
      && (r.Some? <==> lba < |st.flash| && offset + n <= st.bs && (Holds(st.slots, lba) || readOk))
      && (r.Some? ==> r.value == Overlay(st)[lba][offset..offset + n])
  {
    if lba < |st.flash| { OverlayAt(st, lba, Find(st.slots, lba)); }
  }

  lemma {:induction false} OverlaySized(st: State, lba: nat)
    requires Inv(st) && lba < |st.flash|
    ensures |Overlay(st)[lba]| == st.bs
  {
    OverlayAt(st, lba, Find(st.slots, lba));
  }

  lemma {:induction false} WriteRefines(st: State, op: Op)
    requires Inv(st) && op.Write? && Safe(st, op)
    ensures var (r, ok) := Write10(st, op.lba, op.offset, op.data, op.evict, op.load);
      && Inv(r) && Overlay(r) == PlainStep(Overlay(st), op, if ok then Done([]) else Failed)
      && (ok <==> Succeeds(Overlay(st), Holds(st.slots, op.lba), op))
  {
    WriteEffect(st, op.lba, op.offset, op.data, op.evict, op.load);
    WriteSucceedsIff(st, op.lba, op.offset, op.data, op.evict, op.load);
    if op.lba < |st.flash| { OverlaySized(st, op.lba); }
    if Accepts(st, op.lba, op.offset, |op.data|) { OverlaySized(st, op.lba); }
  }

  /** One callback, from any good state: the visible disk follows the plain array. */
  lemma {:induction false} StepRefines(st: State, op: Op)
    requires Inv(st) && Safe(st, op)
    ensures var (r, reply) := Step(st, op);
      && Inv(r) && Overlay(r) == PlainStep(Overlay(st), op, reply)
      && Answers(Overlay(st), Cached(st, op), op, reply)
  {
    match op
    case Read(lba, offset, n, readOk) =>
      ReadAnswers(st, lba, offset, n, readOk);
      if lba < |st.flash| { OverlaySized(st, lba); }
    case Write(_, _, _, _, _) => WriteRefines(st, op);
    case Sync(outcomes) => FlushFromEffect(st, 0, outcomes);
    case StartStop(_, _, outcomes) => FlushFromEffect(st, 0, outcomes);
  }

  /** Which callbacks write to flash: a sync and an eject, and after one whose flushes all succeed flash is
      the disk; a read or any other start or stop changes nothing. */
  lemma {:induction false} StepSyncs(st: State, op: Op)
    requires Inv(st)
    ensures Ejects(op) && AllFlush(st, op.outcomes) ==> Step(st, op).0.flash == Overlay(st)
    ensures op.Read? || (op.StartStop? && !Ejects(op)) ==> Step(st, op).0 == st
  {
    if Ejects(op) && AllFlush(st, op.outcomes) { SyncMakesFlashTheDisk(st, op.outcomes); }
  }

  predicate Ejects(op: Op) { op.Sync? || (op.StartStop? && op.loadEject && !op.start) }

  predicate AllFlush(st: State, outcomes: nat -> Flush) {
    forall i | 0 <= i < |st.slots| :: outcomes(i).Flushed?
  }

  ghost predicate SafeRun(st: State, ops: seq<Op>)
    requires Inv(st)
    decreases |ops|
  {
    ops != [] ==>
      && Safe(st, ops[0])
      && (StepRefines(st, ops[0]); SafeRun(Step(st, ops[0]).0, ops[1..]))
  }

  /** Does every run of the plain array, fed the replies of the cache, agree with the cache? */
  ghost predicate RunAgrees(st: State, disk: seq<Sector>, ops: seq<Op>)
    requires Inv(st) && SafeRun(st, ops)
    decreases |ops|
  {
    && Overlay(st) == disk
    && (ops == [] ||
        (StepRefines(st, ops[0]);
         var (r, reply) := Step(st, ops[0]);
         Answers(disk, Cached(st, ops[0]), ops[0], reply) && RunAgrees(r, PlainStep(disk, ops[0], reply), ops[1..])))
  }

  /** The cache refines a plain disk: in every run in which no eviction flush fails -- reads,
      fills and the flushes of sync and eject may -- every read that succeeds returns the
      plain array's bytes, and the overlay is that array throughout. */
  lemma {:induction false} RunRefinesPlainDisk(st: State, ops: seq<Op>)
    requires Inv(st) && SafeRun(st, ops)
    ensures RunAgrees(st, Overlay(st), ops)
    decreases |ops|
  {
    if ops != [] {
      StepRefines(st, ops[0]);
      RunRefinesPlainDisk(Step(st, ops[0]).0, ops[1..]);
    }
  }

  // ----- least recently written ------------------------------------------------------

  /** 1 + the position of the last write to `l`, or 0 if there is none. */
  function Stamp(h: seq<int>, l: int): (s: nat)
    ensures s <= |h|
    ensures s > 0 ==> h[s - 1] == l
  {
    if h == [] then 0
    else if h[|h| - 1] == l then |h|
    else Stamp(h[..|h| - 1], l)
  }

  predicate Resident(slots: seq<Slot>, l: int) {
    l >= 0 && exists i | 0 <= i < |slots| :: slots[i].lba == l
  }

  predicate Full(slots: seq<Slot>) {
    forall i | 0 <= i < |slots| :: slots[i].lba >= 0
  }

  /** Ticks record the write history exactly. */
  ghost predicate Stamped(slots: seq<Slot>, h: seq<int>) {
    forall i | 0 <= i < |slots| && slots[i].lba >= 0 :: slots[i].used == Stamp(h, slots[i].lba) > 0
  }

  /** No absent sector was written more recently than a resident one. */
  ghost predicate Ordered(slots: seq<Slot>, h: seq<int>) {
    forall a, b | Resident(slots, a) && !Resident(slots, b) :: Stamp(h, b) < Stamp(h, a)
  }

  /** While a slot is free, everything ever written is resident. */
  ghost predicate Covered(slots: seq<Slot>, h: seq<int>) {
    Full(slots) || forall k | 0 <= k < |h| :: Resident(slots, h[k])
  }

  ghost predicate LruInv(st: State, h: seq<int>) {
    && st.clock == |h|
    && Stamped(st.slots, h) && Ordered(st.slots, h) && Covered(st.slots, h)
  }

  lemma {:induction false} StampStep(h: seq<int>, l: int, x: int)
    ensures Stamp(h + [l], x) == if x == l then |h| + 1 else Stamp(h, x)
  {
    assert (h + [l])[..|h|] == h;
  }

  ghost predicate FailureFree(op: Op) {
    match op
    case Write(_, _, _, evict, load) => evict.Flushed? && load.Loaded?
    case Sync(outcomes) => forall i :: outcomes(i).Flushed?
    case StartStop(_, _, outcomes) => forall i :: outcomes(i).Flushed?
    case Read(_, _, _, readOk) => readOk
  }

  predicate Accepted(st: State, op: Op) {
    op.Write? && Accepts(st, op.lba, op.offset, |op.data|)
  }

  /** Which slot an accepted, failure-free write ends up in. */
  function Landing(slots: seq<Slot>, lba: nat): (v: nat)
    requires |slots| > 0
    ensures v < |slots|
  {
    var i := Find(slots, lba);
    if i >= 0 then i else Victim(slots)
  }

  /** `after` is `slots` with the landing slot given to `l` and stamped `tick`. */
  ghost predicate Landed(slots: seq<Slot>, after: seq<Slot>, l: nat, tick: nat) {
    && |after| == |slots| > 0
    && var v := Landing(slots, l);
      && after[v].lba == l && after[v].used == tick
      && forall j | 0 <= j < |slots| && j != v :: after[j] == slots[j]
  }

  lemma {:induction false} WriteLands(st: State, op: Op)
    requires Inv(st) && Accepted(st, op) && FailureFree(op)
    ensures var r := Step(st, op).0;
      r.clock == (st.clock + 1) % U32 && Landed(st.slots, r.slots, op.lba, r.clock)
  {
    if Find(st.slots, op.lba) < 0 {
      BindFacts(st, op.lba, op.evict);
      WriteMissState(st, op.lba, op.offset, op.data, op.evict, op.load);
    }
  }

  lemma {:induction false} LandedResident(slots: seq<Slot>, after: seq<Slot>, l: nat, tick: nat, x: int)
    requires NoAlias(slots) && Landed(slots, after, l, tick)
    ensures Resident(after, x) <==> x == l || (Resident(slots, x) && x != slots[Landing(slots, l)].lba)
  {
    var v := Landing(slots, l);
    if x == l {
      assert after[v].lba == x;
    } else if Resident(slots, x) {
      var j :| 0 <= j < |slots| && slots[j].lba == x;
      assert j != v ==> after[j].lba == x;
    }
  }

  lemma {:induction false} LandedStamped(slots: seq<Slot>, after: seq<Slot>, l: nat, h: seq<int>)
    requires NoAlias(slots) && Landed(slots, after, l, |h| + 1) && Stamped(slots, h)
    ensures Stamped(after, h + [l])
  {
    var v := Landing(slots, l);
    forall i | 0 <= i < |after| && after[i].lba >= 0
      ensures after[i].used == Stamp(h + [l], after[i].lba) > 0
    {
      StampStep(h, l, after[i].lba);
      if i != v { assert after[i] == slots[i] && slots[i].lba != l; }
    }
  }

  lemma {:induction false} LandedOrdered(slots: seq<Slot>, after: seq<Slot>, l: nat, h: seq<int>)
    requires NoAlias(slots) && Landed(slots, after, l, |h| + 1) && Stamped(slots, h) && Ordered(slots, h)
    ensures Ordered(after, h + [l])
  {
    var v := Landing(slots, l);
    forall a, b | Resident(after, a) && !Resident(after, b)
      ensures Stamp(h + [l], b) < Stamp(h + [l], a)
    {
      StampStep(h, l, a);
      StampStep(h, l, b);
      LandedResident(slots, after, l, |h| + 1, a);
      LandedResident(slots, after, l, |h| + 1, b);
      if a != l && Resident(slots, b) {
        // `b` was just evicted: it had the least tick of all, and ticks are distinct.
        var i :| 0 <= i < |slots| && slots[i].lba == a;
        assert slots[v].lba == b && slots[v].used <= slots[i].used;
        assert h[Stamp(h, a) - 1] == a && h[Stamp(h, b) - 1] == b;
      }
    }
  }

  lemma {:induction false} LandedCovered(slots: seq<Slot>, after: seq<Slot>, l: nat, h: seq<int>)
    requires NoAlias(slots) && Landed(slots, after, l, |h| + 1) && Covered(slots, h)
    ensures Covered(after, h + [l])
  {
    var v := Landing(slots, l);
    if k :| 0 <= k < |after| && after[k].lba < 0 {
      assert slots[k].lba < 0 && !Full(slots);
      forall j | 0 <= j < |h + [l]| ensures Resident(after, (h + [l])[j]) {
        LandedResident(slots, after, l, |h| + 1, (h + [l])[j]);
      }
    }
  }

  lemma {:induction false} LandedKeeps(st: State, r: State, l: nat, h: seq<int>)
    requires NoAlias(st.slots) && LruInv(st, h) && Landed(st.slots, r.slots, l, |h| + 1) && r.clock == |h| + 1
    ensures LruInv(r, h + [l])
  {
    LandedStamped(st.slots, r.slots, l, h);
    LandedOrdered(st.slots, r.slots, l, h);
    LandedCovered(st.slots, r.slots, l, h);
  }

  lemma {:induction false} LruStep(st: State, op: Op, h: seq<int>)
    requires Inv(st) && LruInv(st, h) && FailureFree(op)
    requires Accepted(st, op) ==> |h| + 1 < U32
    ensures LruInv(Step(st, op).0, if Accepted(st, op) then h + [op.lba] else h)
  {
    match op
    case Read(_, _, _, _) =>
    case Write(_, _, _, _, _) => if Accepted(st, op) { LruWrite(st, op, h); }
    case Sync(outcomes) => FlushKeepsLru(st, outcomes, h);
    case StartStop(_, _, outcomes) => FlushKeepsLru(st, outcomes, h);
  }

  lemma {:induction false} NoWrap(tick: nat)
    requires tick < U32
    ensures tick % U32 == tick
  {
  }

  lemma {:induction false} LruWrite(st: State, op: Op, h: seq<int>)
    requires Inv(st) && LruInv(st, h) && Accepted(st, op) && FailureFree(op) && |h| + 1 < U32
    ensures LruInv(Step(st, op).0, h + [op.lba])
  {
    WriteLands(st, op);
    NoWrap(|h| + 1);
    LandedKeeps(st, Step(st, op).0, op.lba, h);
  }

  /** Residency and ticks are all that counts. */
  lemma {:induction false} LruInvSame(st: State, r: State, h: seq<int>)
    requires LruInv(st, h) && r.clock == st.clock && |r.slots| == |st.slots|
    requires forall j | 0 <= j < |st.slots| :: r.slots[j].lba == st.slots[j].lba && r.slots[j].used == st.slots[j].used
    ensures LruInv(r, h)
  {
    forall b ensures Resident(r.slots, b) == Resident(st.slots, b) {
      if Resident(st.slots, b) {
        var j :| 0 <= j < |st.slots| && st.slots[j].lba == b;
        assert r.slots[j].lba == b;
      }
    }
  }

  lemma {:induction false} FlushKeepsLru(st: State, outcomes: nat -> Flush, h: seq<int>)
    requires Inv(st) && LruInv(st, h)
    ensures LruInv(FlushFrom(st, 0, outcomes), h)
  {
    FlushFromEffect(st, 0, outcomes);
    LruInvSame(st, FlushFrom(st, 0, outcomes), h);
  }

  /** State and accepted write history after a run. */
  ghost function Run(st: State, ops: seq<Op>, h: seq<int>): (r: (State, seq<int>))
    requires Inv(st)
    ensures h <= r.1
    decreases |ops|
  {
    if ops == [] then (st, h)
    else
      StepKeepsInv(st, ops[0]);
      Run(Step(st, ops[0]).0, ops[1..], if Accepted(st, ops[0]) then h + [ops[0].lba] else h)
  }

  lemma {:induction false} StepKeepsInv(st: State, op: Op)
    requires Inv(st)
    ensures var r := Step(st, op).0; Inv(r) && r.bs == st.bs && |r.flash| == |st.flash|
  {
    match op
    case Read(_, _, _, _) =>
    case Write(lba, offset, data, evict, load) => WriteEffect(st, lba, offset, data, evict, load);
    case Sync(outcomes) => FlushFromEffect(st, 0, outcomes);
    case StartStop(_, _, outcomes) => FlushFromEffect(st, 0, outcomes);
  }

  lemma {:induction false} RunKeepsLru(st: State, ops: seq<Op>, h: seq<int>)
    requires Inv(st) && LruInv(st, h)
    requires forall k | 0 <= k < |ops| :: Contained(|st.flash|, st.bs, ops[k]) && FailureFree(ops[k])
    requires |Run(st, ops, h).1| < U32
    ensures var (r, h') := Run(st, ops, h); Inv(r) && LruInv(r, h')
    decreases |ops|
  {
    if ops != [] {
      StepKeepsInv(st, ops[0]);
      LruStep(st, ops[0], h);
      RunKeepsLru(Step(st, ops[0]).0, ops[1..], if Accepted(st, ops[0]) then h + [ops[0].lba] else h);
    }
  }

  /** The sectors held by some slot. */
  ghost function ResidentSet(slots: seq<Slot>): set<int> {
    set i | 0 <= i < |slots| && slots[i].lba >= 0 :: slots[i].lba
  }

  /** `s` is the `n` most recently written distinct sectors of `h`, or all of them if fewer. */
  ghost predicate MostRecent(s: set<int>, h: seq<int>, n: nat) {
    && (forall a | a in s :: a in h)
    && (forall a, b | a in s && b in h && b !in s :: Stamp(h, b) < Stamp(h, a))
    && |s| <= n
    && (|s| < n ==> forall b | b in h :: b in s)
  }

  lemma {:induction false} ResidentCount(slots: seq<Slot>)
    requires NoAlias(slots)
    ensures |ResidentSet(slots)| <= |slots|
    ensures |ResidentSet(slots)| == |slots| <==> Full(slots)
  {
    if slots != [] {
      var n := |slots| - 1;
      var rest, last := slots[..n], slots[n].lba;
      ResidentCount(rest);
      assert ResidentSet(slots) == ResidentSet(rest) + if last >= 0 then {last} else {};
    }
  }

  /** Eviction is least-recently-written: after any failure-free run of a fresh cache with
      fewer than 2^32 accepted writes, the resident sectors are exactly the most recently
      written distinct sectors that fit. */
  lemma {:induction false} EvictionIsLeastRecentlyWritten(st: State, ops: seq<Op>)
    requires Inv(st) && st.clock == 0 && forall i | 0 <= i < |st.slots| :: st.slots[i].lba < 0
    requires forall k | 0 <= k < |ops| :: Contained(|st.flash|, st.bs, ops[k]) && FailureFree(ops[k])
    requires |Run(st, ops, []).1| < U32
    ensures var (r, h) := Run(st, ops, []); MostRecent(ResidentSet(r.slots), h, |r.slots|)
  {
    RunKeepsLru(st, ops, []);
    var (r, h) := Run(st, ops, []);
    ResidentCount(r.slots);
    forall b ensures Resident(r.slots, b) <==> b in ResidentSet(r.slots) { }
  }

  /** At most one set can be the most recent one, so the statement above pins residency down. */
  lemma {:induction false} MostRecentUnique(s: set<int>, t: set<int>, h: seq<int>, n: nat)
    requires MostRecent(s, h, n) && MostRecent(t, h, n)
    ensures s == t
  {
    MostRecentWithin(s, t, h, n);
    MostRecentWithin(t, s, h, n);
  }

  lemma {:induction false} MostRecentWithin(s: set<int>, t: set<int>, h: seq<int>, n: nat)
    requires MostRecent(s, h, n) && MostRecent(t, h, n)
    ensures s <= t
  {
    forall a | a in s ensures a in t {
      if a !in t {
        forall b | b in t ensures b in s {
          assert a in h && b in h;
          var stamps := (Stamp(h, a), Stamp(h, b));
        }
        Smaller(t, s, a);
      }
    }
  }

  lemma {:induction false} Smaller(s: set<int>, t: set<int>, a: int)
    requires s <= t && a in t && a !in s
    ensures |s| < |t|
  {
    assert |s + {a}| == |s| + 1;
    assert |t - (s + {a})| == |t| - |s + {a}|;
  }
}
