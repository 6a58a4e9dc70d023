/** The write-back sector cache that serves the internal flash over USB mass storage.

    `State` is the value of the cache's static variables together with the flash
    behind it; the functions on it say what each callback does, with every flash
    call's outcome passed in.  `DiskCache` is the mutable object, proved against
    those functions.  `Overlay` is the disk a host should see. */
module SectorCache {
  import opened Common

  type Sector = seq<byte>

  const MSC_MAX_SECTOR: nat := 4096
  const MSC_CACHE_SECTORS: nat := 64

  /** `lba` is -1 for a free slot; `used` is the tick of the last write. */
  datatype Slot = Slot(lba: int, dirty: bool, used: nat, data: Sector)

  datatype State = State(bs: nat, slots: seq<Slot>, flash: seq<Sector>, clock: nat)

  /** Outcome of flushing a dirty slot.  A failed erase or write leaves the sector with
      arbitrary contents. */
  datatype Flush = Flushed | NoHandle | EraseFailed(junk: nat -> byte) | WriteFailed(junk: nat -> byte)

  /** Outcome of filling a slot from flash; a failed read may scribble over the buffer. */
  datatype Load = Loaded | LoadFailed(junk: nat -> byte)

  // ----- invariant and abstraction ---------------------------------------------

  ghost predicate SlotOk(st: State, s: Slot) {
    && |s.data| == st.bs
    && -1 <= s.lba < |st.flash|
    && (s.lba < 0 ==> !s.dirty)
    && (s.lba >= 0 && !s.dirty ==> s.data == st.flash[s.lba])
  }

  ghost predicate NoAlias(slots: seq<Slot>) {
    forall i, j | 0 <= i < j < |slots| :: slots[i].lba >= 0 ==> slots[i].lba != slots[j].lba
  }

  ghost predicate Inv(st: State) {
    && 0 < st.bs <= MSC_MAX_SECTOR
    && |st.slots| > 0
    && |st.flash| <= 0x8000_0000
    && (forall l | 0 <= l < |st.flash| :: |st.flash[l]| == st.bs)
    && (forall i | 0 <= i < |st.slots| :: SlotOk(st, st.slots[i]))
    && NoAlias(st.slots)
  }

  /** First slot holding `lba`, or -1. */
  function Find(slots: seq<Slot>, lba: int): (r: int)
    ensures -1 <= r < |slots|
    ensures r >= 0 ==> slots[r].lba == lba && forall j | 0 <= j < r :: slots[j].lba != lba
    ensures r < 0 ==> forall j | 0 <= j < |slots| :: slots[j].lba != lba
  {
    if slots == [] then -1
    else
      var n := |slots| - 1;
      var r := Find(slots[..n], lba);
      if r >= 0 then r else if slots[n].lba == lba then n else -1
  }

  function SectorAt(st: State, l: int): Sector
    requires 0 <= l < |st.flash|
  {
    var i := Find(st.slots, l);
    if i >= 0 then st.slots[i].data else st.flash[l]
  }

  /** The disk the host should see: a slot's contents where one is resident, else flash. */
  function Overlay(st: State): (disk: seq<Sector>)
    ensures |disk| == |st.flash|
  {
    seq(|st.flash|, l requires 0 <= l < |st.flash| => SectorAt(st, l))
  }

  // ----- the callbacks as functions ----------------------------------------------

  function Junk(bs: nat, junk: nat -> byte): (s: Sector)
    ensures |s| == bs
  {
    seq(bs, i requires 0 <= i < bs => junk(i))
  }

  function FlushSlot(st: State, i: nat, f: Flush): (State, bool)
    requires i < |st.slots|
    requires st.slots[i].dirty ==> 0 <= st.slots[i].lba < |st.flash|
  {
    var s := st.slots[i];
    if !s.dirty then (st, true)
    else match f
      case Flushed => (st.(slots := st.slots[i := s.(dirty := false)], flash := st.flash[s.lba := s.data]), true)
      case NoHandle => (st, false)
      case EraseFailed(junk) => (st.(flash := st.flash[s.lba := Junk(st.bs, junk)]), false)
      case WriteFailed(junk) => (st.(flash := st.flash[s.lba := Junk(st.bs, junk)]), false)
  }

  /** Flush slots `i`, `i+1`, ...; individual failures are ignored. */
  function FlushFrom(st: State, i: nat, outcomes: nat -> Flush): (r: State)
    requires Inv(st)
    ensures Inv(r) && |r.slots| == |st.slots|
    decreases |st.slots| - i
  {
    if i >= |st.slots| then st
    else
      FlushKeepsOverlay(st, i, outcomes(i));
      FlushFrom(FlushSlot(st, i, outcomes(i)).0, i + 1, outcomes)
  }

  /** The slot `slot_bind` recycles: the first free one, else the first with the least tick. */
  function Victim(slots: seq<Slot>): (v: nat)
    requires |slots| > 0
    ensures v < |slots|
    ensures slots[v].lba < 0 ==> forall j | 0 <= j < v :: slots[j].lba >= 0
    ensures slots[v].lba >= 0 ==> forall j | 0 <= j < |slots| :: slots[j].lba >= 0 && slots[v].used <= slots[j].used
    ensures slots[v].lba >= 0 ==> forall j | 0 <= j < v :: slots[v].used < slots[j].used
  {
    var n := |slots| - 1;
    if n == 0 then 0
    else
      var v := Victim(slots[..n]);
      if slots[v].lba < 0 then v
      else if slots[n].lba < 0 || slots[n].used < slots[v].used then n
      else v
  }

  function Patch(s: Sector, offset: nat, data: seq<byte>): (r: Sector)
    requires offset + |data| <= |s|
    ensures |r| == |s|
  {
    s[..offset] + data + s[offset + |data|..]
  }

  function Store(st: State, i: nat, offset: nat, data: seq<byte>): State
    requires i < |st.slots| && offset + |data| <= |st.slots[i].data|
  {
    var tick := (st.clock + 1) % U32;
    st.(slots := st.slots[i := Slot(st.slots[i].lba, true, tick, Patch(st.slots[i].data, offset, data))], clock := tick)
  }

  /** Evict a slot and give it to `lba`; its buffer still holds the old sector. */
  function Bind(st: State, lba: nat, evict: Flush): State
    requires Inv(st)
  {
    var v := Victim(st.slots);
    var st1 := FlushSlot(st, v, evict).0;
    st1.(slots := st1.slots[v := st1.slots[v].(lba := lba, dirty := false)])
  }

  predicate Accepts(st: State, lba: nat, offset: nat, n: nat) {
    lba < |st.flash| && offset + n <= st.bs
  }

  /** The test in the code, on a 32-bit sum. */
  predicate TestPasses(count: nat, bs: nat, lba: nat, offset: nat, n: nat) { lba < count && (offset + n) % U32 <= bs }

  /** A range the test lets through although it leaves the sector: the sum wraps to something small. */
  predicate SlipsThrough(count: nat, bs: nat, lba: nat, offset: nat, n: nat) {
    lba < count && offset + n >= U32 && offset + n - U32 <= bs
  }

  /** For 32-bit offsets and lengths the test is right if and only if the sum does not wrap to within a
      sector. */
  lemma {:induction false} TestIff(st: State, lba: nat, offset: nat, n: nat)
    requires offset < U32 && n < U32 && st.bs <= MSC_MAX_SECTOR
    ensures TestPasses(|st.flash|, st.bs, lba, offset, n) == Accepts(st, lba, offset, n)
            <==> !SlipsThrough(|st.flash|, st.bs, lba, offset, n)
    ensures TestPasses(|st.flash|, st.bs, lba, offset, n)
            <==> Accepts(st, lba, offset, n) || SlipsThrough(|st.flash|, st.bs, lba, offset, n)
  {
  }

  /** One byte at offset 2^32 - 1 of a 512-byte sector. */
  lemma {:induction false} SlipExample()
    ensures SlipsThrough(1, 512, 0, 0xffff_ffff, 1) && TestPasses(1, 512, 0, 0xffff_ffff, 1)
  {
  }

  function Fill(st: State, v: nat, load: Load): State
    requires v < |st.slots| && 0 <= st.slots[v].lba < |st.flash|
  {
    match load
    case Loaded => st.(slots := st.slots[v := st.slots[v].(data := st.flash[st.slots[v].lba])])
    case LoadFailed(junk) => st.(slots := st.slots[v := st.slots[v].(lba := -1, data := Junk(st.bs, junk))])
  }

  function Write10(st: State, lba: nat, offset: nat, data: seq<byte>, evict: Flush, load: Load): (r: (State, bool))
    requires Inv(st)
  {
    if !Accepts(st, lba, offset, |data|) then (st, false)
    else
      var i := Find(st.slots, lba);
      if i >= 0 then (Store(st, i, offset, data), true)
      else
        var v := Victim(st.slots);
        var st1 := Bind(st, lba, evict);
        if offset == 0 && |data| == st.bs then (Store(st1, v, offset, data), true)
        else
          var st2 := Fill(st1, v, load);
          if load.Loaded? then (Store(st2, v, offset, data), true) else (st2, false)
  }

  /** Reads never change the cache; a miss goes to flash and may fail. */
  function Read10(st: State, lba: nat, offset: nat, n: nat, readOk: bool): Option<seq<byte>>
    requires Inv(st)
  {
    if !Accepts(st, lba, offset, n) then None
    else
      var i := Find(st.slots, lba);
      if i >= 0 then Some(st.slots[i].data[offset..offset + n])
      else if readOk then Some(st.flash[lba][offset..offset + n])
      else None
  }

  /** The state `cache_ready` sets up on first use. */
  function Fresh(bs: nat, flash: seq<Sector>, nslots: nat, buffer: nat -> Sector): State {
    State(bs, seq(nslots, i requires 0 <= i < nslots => Slot(-1, false, 0, buffer(i))), flash, 0)
  }

  // ----- one step at a time --------------------------------------------------------

  lemma {:induction false} SectorOfSlot(st: State, i: nat)
    requires Inv(st) && i < |st.slots| && st.slots[i].lba >= 0
    ensures SectorAt(st, st.slots[i].lba) == st.slots[i].data
  {
  }

  /** Two states with the same resident sectors and, elsewhere, the same flash show the same disk. */
  lemma {:induction false} OverlayAt(st: State, l: int, i: int)
    requires Inv(st) && 0 <= l < |st.flash|
    requires -1 <= i < |st.slots|
    requires if i >= 0 then st.slots[i].lba == l else forall j | 0 <= j < |st.slots| :: st.slots[j].lba != l
    ensures Overlay(st)[l] == if i >= 0 then st.slots[i].data else st.flash[l]
  {
    if i >= 0 { SectorOfSlot(st, i); }
  }

  /** Flushing any slot, whether or not the flash cooperates, keeps the invariant and the
      visible disk; a successful flush leaves the slot clean. */
  lemma {:induction false} FlushKeepsOverlay(st: State, i: nat, f: Flush)
    requires Inv(st) && i < |st.slots|
    ensures var (r, ok) := FlushSlot(st, i, f);
      && Inv(r) && Overlay(r) == Overlay(st)
      && r.clock == st.clock && r.bs == st.bs && |r.slots| == |st.slots| && |r.flash| == |st.flash|
      && (forall j | 0 <= j < |st.slots| :: r.slots[j] == st.slots[j].(dirty := st.slots[j].dirty && !(j == i && ok)))
      && (ok <==> !st.slots[i].dirty || f.Flushed?)
  {
    var r := FlushSlot(st, i, f).0;
    assert forall j | 0 <= j < |st.slots| :: r.slots[j].lba == st.slots[j].lba && r.slots[j].data == st.slots[j].data;
    assert NoAlias(r.slots);
    SameOverlay(st, r, st.slots[i].lba);
  }

  /** What a flush does to flash: nothing but to the slot's own sector, and to that nothing unless it is
      dirty and the flash is there. */
  lemma {:induction false} FlushTouches(st: State, i: nat, f: Flush)
    requires Inv(st) && i < |st.slots|
    ensures var r := FlushSlot(st, i, f).0;
      && |r.flash| == |st.flash|
      && (forall l | 0 <= l < |st.flash| && (l != st.slots[i].lba || !st.slots[i].dirty || f.NoHandle?) ::
            r.flash[l] == st.flash[l])
      && (st.slots[i].dirty && f.Flushed? ==> r.flash[st.slots[i].lba] == st.slots[i].data)
      && (st.slots[i].dirty && f.EraseFailed? ==> forall k | 0 <= k < st.bs :: r.flash[st.slots[i].lba][k] == f.junk(k))
      && (st.slots[i].dirty && f.WriteFailed? ==> forall k | 0 <= k < st.bs :: r.flash[st.slots[i].lba][k] == f.junk(k))
  {
  }

  /** Flash may change under a sector that is resident. */
  lemma {:induction false} SameOverlay(st: State, r: State, m: int)
    requires Inv(st) && Inv(r) && |r.slots| == |st.slots| && |r.flash| == |st.flash|
    requires forall j | 0 <= j < |st.slots| :: r.slots[j].lba == st.slots[j].lba && r.slots[j].data == st.slots[j].data
    requires forall l | 0 <= l < |st.flash| && l != m :: r.flash[l] == st.flash[l]
    requires m >= 0 ==> exists j | 0 <= j < |st.slots| :: st.slots[j].lba == m
    ensures Overlay(r) == Overlay(st)
  {
    forall l | 0 <= l < |st.flash|
      ensures Overlay(r)[l] == Overlay(st)[l]
    {
      var k := Find(st.slots, l);
      OverlayAt(st, l, k);
      OverlayAt(r, l, k);
    }
  }

  /** The whole of the flash-failure hazard: the evicted slot is dirty and its flush fails. */
  predicate EvictionLost(st: State, lba: nat, evict: Flush)
    requires |st.slots| > 0
  {
    Find(st.slots, lba) < 0 && st.slots[Victim(st.slots)].dirty && !evict.Flushed?
  }

  /** What flash holds for the evicted sector after the eviction flush. */
  function EvictedContent(st: State, evict: Flush): Sector
    requires Inv(st) && st.slots[Victim(st.slots)].lba >= 0
  {
    var s := st.slots[Victim(st.slots)];
    FlushSlot(st, Victim(st.slots), evict).0.flash[s.lba]
  }

  /** The sector the write is aimed at, and (only after a lost eviction) the evicted sector. */
  function Expected(st: State, lba: nat, offset: nat, data: seq<byte>, evict: Flush,
                    accepted: bool): (disk: seq<Sector>)
    requires Inv(st) && lba < |st.flash| && offset + |data| <= st.bs
    ensures |disk| == |st.flash|
  {
    var disk := Overlay(st);
    var disk1 := if EvictionLost(st, lba, evict)
                 then disk[st.slots[Victim(st.slots)].lba := EvictedContent(st, evict)] else disk;
    if accepted then disk1[lba := Patch(disk[lba], offset, data)] else disk1
  }

  lemma {:induction false} StoreEffect(st: State, i: nat, offset: nat, data: seq<byte>)
    requires Inv(st) && i < |st.slots| && st.slots[i].lba >= 0 && offset + |data| <= st.bs
    ensures var r := Store(st, i, offset, data);
      var l := st.slots[i].lba;
      Inv(r) && Overlay(r) == Overlay(st)[l := Patch(Overlay(st)[l], offset, data)]
  {
    var r := Store(st, i, offset, data);
    assert forall j | 0 <= j < |st.slots| :: r.slots[j].lba == st.slots[j].lba;
    forall l | 0 <= l < |st.flash|
      ensures Overlay(r)[l] == if l == st.slots[i].lba then Patch(Overlay(st)[l], offset, data) else Overlay(st)[l]
    {
      var k := Find(st.slots, l);
      OverlayAt(st, l, k);
      OverlayAt(r, l, k);
    }
  }

  /** Handing slot `v` to another sector (or to none) uncovers what flash holds for the sector
      it had, and changes nothing else, if the slot now agrees with flash. */
  lemma {:induction false} ReplaceSlot(st: State, v: nat, s: Slot)
    requires Inv(st) && v < |st.slots| && SlotOk(st, s) && !s.dirty
    requires s.lba >= 0 ==> Find(st.slots, s.lba) < 0
    ensures var r := st.(slots := st.slots[v := s]);
      var l := st.slots[v].lba;
      Inv(r) && Overlay(r) == if l >= 0 then Overlay(st)[l := st.flash[l]] else Overlay(st)
  {
    var r := st.(slots := st.slots[v := s]);
    assert NoAlias(r.slots);
    forall l | 0 <= l < |st.flash|
      ensures Overlay(r)[l] == if l == st.slots[v].lba then st.flash[l] else Overlay(st)[l]
    {
      ReplacedAt(st, v, s, r, l);
    }
  }

  lemma {:induction false} ReplacedAt(st: State, v: nat, s: Slot, r: State, l: int)
    requires Inv(st) && v < |st.slots| && r == st.(slots := st.slots[v := s]) && Inv(r) && 0 <= l < |st.flash|
    requires s.lba >= 0 ==> !s.dirty && Find(st.slots, s.lba) < 0
    ensures Overlay(r)[l] == if l == st.slots[v].lba then st.flash[l] else Overlay(st)[l]
  {
    var k := Find(st.slots, l);
    OverlayAt(st, l, k);
    OverlayAt(r, l, if l == s.lba then v else if l == st.slots[v].lba then -1 else k);
  }

  /** Rebinding the victim loses nothing but what a failed eviction flush loses. */
  lemma {:induction false} RebindEffect(st: State, lba: nat, evict: Flush, s: Slot)
    requires Inv(st) && lba < |st.flash| && Find(st.slots, lba) < 0
    requires |s.data| == st.bs && !s.dirty && (s.lba == -1 || (s.lba == lba && s.data == st.flash[lba]))
    ensures var v := Victim(st.slots);
      var b := Bind(st, lba, evict);
      var r := b.(slots := b.slots[v := s]);
      && Inv(r)
      && Overlay(r) == if EvictionLost(st, lba, evict)
           then Overlay(st)[st.slots[v].lba := EvictedContent(st, evict)] else Overlay(st)
  {
    var v := Victim(st.slots);
    var f := FlushSlot(st, v, evict).0;
    FlushKeepsOverlay(st, v, evict);
    assert forall j | 0 <= j < |st.slots| :: f.slots[j].lba == st.slots[j].lba;
    assert Bind(st, lba, evict).slots[v := s] == f.slots[v := s];
    ReplaceSlot(f, v, s);
    if st.slots[v].lba >= 0 { Uncovered(st, lba, evict); }
  }

  /** What flash holds for the evicted sector is what was seen of it, unless its flush failed. */
  lemma {:induction false} Uncovered(st: State, lba: nat, evict: Flush)
    requires Inv(st) && Find(st.slots, lba) < 0 && st.slots[Victim(st.slots)].lba >= 0
    ensures !EvictionLost(st, lba, evict) ==>
              EvictedContent(st, evict) == Overlay(st)[st.slots[Victim(st.slots)].lba]
  {
    var v := Victim(st.slots);
    OverlayAt(st, st.slots[v].lba, v);
  }

  lemma {:induction false} BindFacts(st: State, lba: nat, evict: Flush)
    requires Inv(st) && lba < |st.flash| && Find(st.slots, lba) < 0
    ensures var b := Bind(st, lba, evict);
      var v := Victim(st.slots);
      && b.bs == st.bs && b.clock == st.clock && |b.slots| == |st.slots| && |b.flash| == |st.flash|
      && b.slots[v].lba == lba && !b.slots[v].dirty && |b.slots[v].data| == st.bs
      && b.flash[lba] == st.flash[lba]
      && (forall j | 0 <= j < |st.slots| && j != v :: b.slots[j] == st.slots[j])
  {
    FlushKeepsOverlay(st, Victim(st.slots), evict);
  }

  /** An accepted write that misses leaves the slot holding the patched sector, whatever the
      recycled buffer held before. */
  lemma {:induction false} WriteMissState(st: State, lba: nat, offset: nat, data: seq<byte>, evict: Flush, load: Load)
    requires Inv(st) && lba < |st.flash| && offset + |data| <= st.bs && Find(st.slots, lba) < 0
    requires (offset == 0 && |data| == st.bs) || load.Loaded?
    ensures var v := Victim(st.slots);
      var b := Bind(st, lba, evict);
      && v < |b.slots| && |st.flash[lba]| == st.bs
      && Write10(st, lba, offset, data, evict, load)
         == (Store(b.(slots := b.slots[v := b.slots[v].(data := st.flash[lba])]), v, offset, data), true)
  {
    var v := Victim(st.slots);
    var b := Bind(st, lba, evict);
    BindFacts(st, lba, evict);
    var s := b.slots[v].(data := st.flash[lba]);
    if offset == 0 && |data| == st.bs {
      assert Patch(b.slots[v].data, offset, data) == data == Patch(s.data, offset, data);
      assert Store(b, v, offset, data).slots == Store(b.(slots := b.slots[v := s]), v, offset, data).slots;
    }
  }

  lemma {:induction false} AcceptedMissEffect(st: State, lba: nat, offset: nat, data: seq<byte>, evict: Flush,
                                              load: Load)
    requires Inv(st) && lba < |st.flash| && offset + |data| <= st.bs && Find(st.slots, lba) < 0
    requires (offset == 0 && |data| == st.bs) || load.Loaded?
    ensures var (r, ok) := Write10(st, lba, offset, data, evict, load);
      ok && Inv(r) && Overlay(r) == Expected(st, lba, offset, data, evict, true)
  {
    var v := Victim(st.slots);
    var b := Bind(st, lba, evict);
    BindFacts(st, lba, evict);
    WriteMissState(st, lba, offset, data, evict, load);
    var s := b.slots[v].(data := st.flash[lba]);
    RebindEffect(st, lba, evict, s);
    var c := b.(slots := b.slots[v := s]);
    OverlayAt(st, lba, -1);
    OverlayAt(c, lba, v);
    StoreEffect(c, v, offset, data);
  }

  lemma {:induction false} FailedFillEffect(st: State, lba: nat, offset: nat, data: seq<byte>, evict: Flush, load: Load)
    requires Inv(st) && lba < |st.flash| && offset + |data| <= st.bs && Find(st.slots, lba) < 0
    requires !(offset == 0 && |data| == st.bs) && load.LoadFailed?
    ensures var (r, ok) := Write10(st, lba, offset, data, evict, load);
      !ok && Inv(r) && Overlay(r) == Expected(st, lba, offset, data, evict, false)
  {
    BindFacts(st, lba, evict);
    RebindEffect(st, lba, evict,
        Bind(st, lba, evict).slots[Victim(st.slots)].(lba := -1, data := Junk(st.bs, load.junk)));
  }

  lemma {:induction false} WriteMissEffect(st: State, lba: nat, offset: nat, data: seq<byte>, evict: Flush, load: Load)
    requires Inv(st) && lba < |st.flash| && offset + |data| <= st.bs && Find(st.slots, lba) < 0
    ensures var (r, ok) := Write10(st, lba, offset, data, evict, load);
      Inv(r) && Overlay(r) == Expected(st, lba, offset, data, evict, ok)
  {
    if (offset == 0 && |data| == st.bs) || load.Loaded? {
      AcceptedMissEffect(st, lba, offset, data, evict, load);
    } else {
      FailedFillEffect(st, lba, offset, data, evict, load);
    }
  }

  /** A write changes the visible disk at the sector it names, if it is accepted, and nowhere
      else -- except that an eviction whose flush failed exposes what flash holds for the
      evicted sector. */
  lemma {:induction false} WriteEffect(st: State, lba: nat, offset: nat, data: seq<byte>, evict: Flush, load: Load)
    requires Inv(st)
    ensures var (r, ok) := Write10(st, lba, offset, data, evict, load);
      && Inv(r)
      && (!Accepts(st, lba, offset, |data|) ==> r == st && !ok)
      && (Accepts(st, lba, offset, |data|) ==> Overlay(r) == Expected(st, lba, offset, data, evict, ok))
  {
    if Accepts(st, lba, offset, |data|) {
      var i := Find(st.slots, lba);
      if i >= 0 {
        StoreEffect(st, i, offset, data);
      } else {
        WriteMissEffect(st, lba, offset, data, evict, load);
      }
    }
  }

  /** Exactly when a write succeeds: in range and either resident, or a whole sector, or filled from flash.
      What the eviction flush does is no part of it. */
  lemma {:induction false} WriteSucceedsIff(st: State, lba: nat, offset: nat, data: seq<byte>, evict: Flush, load: Load)
    requires Inv(st)
    ensures Write10(st, lba, offset, data, evict, load).1
      <==> lba < |st.flash| && offset + |data| <= st.bs
           && (Holds(st.slots, lba) || (offset == 0 && |data| == st.bs) || load.Loaded?)
  {
  }

  /** Some slot holds the sector. */
  predicate Holds(slots: seq<Slot>, lba: int) { exists i | 0 <= i < |slots| :: slots[i].lba == lba }

  /** Exactly when a write refines the plain disk: unless an eviction flush fails and leaves
      flash different from the slot it was given. */
  lemma {:induction false} WriteRefinesIff(st: State, lba: nat, offset: nat, data: seq<byte>, evict: Flush, load: Load)
    requires Inv(st) && Accepts(st, lba, offset, |data|)
    ensures var (r, ok) := Write10(st, lba, offset, data, evict, load);
      var disk := Overlay(st);
      (Overlay(r) == if ok then disk[lba := Patch(disk[lba], offset, data)] else disk)
        <==> (EvictionLost(st, lba, evict) ==> EvictedContent(st, evict) == st.slots[Victim(st.slots)].data)
  {
    WriteEffect(st, lba, offset, data, evict, load);
    var disk := Overlay(st);
    var (r, ok) := Write10(st, lba, offset, data, evict, load);
    if EvictionLost(st, lba, evict) {
      var v := Victim(st.slots);
      var l := st.slots[v].lba;
      OverlayAt(st, l, v);
      assert l != lba;
      assert Overlay(r)[l] == EvictedContent(st, evict);
      assert (if ok then disk[lba := Patch(disk[lba], offset, data)] else disk)[l] == st.slots[v].data;
    }
  }

  /** One slot holding an unwritten change to sector 0, a write to sector 1, and no flash handle at the
      moment of the eviction: the change to sector 0 is gone. */
  lemma {:induction false} EvictionExample()
    ensures var st := State(1, [Slot(0, true, 1, [7])], [[0], [0]], 1);
      && Inv(st) && Overlay(st)[0] == [7]
      && var (r, ok) := Write10(st, 1, 0, [9], NoHandle, Loaded);
         ok && Inv(r) && Overlay(r)[0] == [0]
  {
    var st := State(1, [Slot(0, true, 1, [7])], [[0], [0]], 1);
    assert Inv(st);
    WriteEffect(st, 1, 0, [9], NoHandle, Loaded);
    OverlayAt(st, 0, 0);
    assert Victim(st.slots) == 0;
    assert EvictionLost(st, 1, NoHandle);
    assert EvictedContent(st, NoHandle) == [0];
  }
}
