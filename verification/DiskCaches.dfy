/** The cache as the firmware runs it: slot array, flash and clock updated in place by the
    mass-storage callbacks.  Each method is tied to its function in `SectorCache`. */
module DiskCaches {
  import opened Common
  import opened SectorCache

  lemma {:induction false} FreshInv(bs: nat, flash: seq<Sector>, nslots: nat, heap: nat -> Sector)
    requires 0 < bs <= MSC_MAX_SECTOR && 0 < nslots && |flash| <= 0x8000_0000
    requires forall l | 0 <= l < |flash| :: |flash[l]| == bs
    requires forall i | 0 <= i < nslots :: |heap(i)| == bs
    ensures Inv(Fresh(bs, flash, nslots, heap)) && Overlay(Fresh(bs, flash, nslots, heap)) == flash
  {
    var st := Fresh(bs, flash, nslots, heap);
    forall l | 0 <= l < |flash| ensures Overlay(st)[l] == flash[l] { OverlayAt(st, l, -1); }
  }

  lemma {:induction false} WriteKeepsInv(st: State, lba: nat, offset: nat, data: seq<byte>, evict: Flush, load: Load)
    requires Inv(st)
    ensures Inv(SectorCache.Write10(st, lba, offset, data, evict, load).0)
  {
    WriteEffect(st, lba, offset, data, evict, load);
  }

  class DiskCache {
    const bs: nat            // wear-levelling sector size
    const flash: array<Sector>
    var slots: array<Slot>   // empty until the first access
    var clock: nat

    ghost function View(): State
      reads this, slots, flash
    {
      State(bs, slots[..], flash[..], clock)
    }

    ghost predicate Ready()
      reads this, slots, flash
    {
      Inv(View())
    }

    ghost predicate Ticks()
      reads this, slots
    {
      clock < U32 && forall i | 0 <= i < slots.Length :: slots[i].used < U32
    }

    /** Fresh, or initialised and consistent. */
    ghost predicate Valid()
      reads this, slots, flash
    {
      if slots.Length > 0 then Ready()
      else clock == 0 && flash.Length <= 0x8000_0000 && forall l | 0 <= l < flash.Length :: |flash[l]| == bs
    }

    /** The state the next access works on, initialising the cache if nobody has. */
    ghost function Opened(mallocOk: bool, heap: nat -> Sector): State
      reads this, slots, flash
    {
      if slots.Length > 0 then View()
      else Fresh(bs, flash[..], if mallocOk then MSC_CACHE_SECTORS else 1, heap)
    }

    constructor (bs: nat, flash: array<Sector>)
      requires flash.Length <= 0x8000_0000 && forall l | 0 <= l < flash.Length :: |flash[l]| == bs
      ensures Valid() && slots.Length == 0 && this.bs == bs && this.flash == flash && fresh(slots)
    {
      this.bs := bs;
      this.flash := flash;
      slots := new Slot[0];
      clock := 0;
    }

    /** `cache_ready`: allocate on first use, falling back to one slot; refuse odd sector sizes. */
    method CacheReady(mallocOk: bool, heap: nat -> Sector) returns (ok: bool)
      requires Valid() && forall i :: |heap(i)| == bs
      modifies this
      ensures Valid() && (slots == old(slots) || fresh(slots))
      ensures ok <==> old(slots.Length) > 0 || 0 < bs <= MSC_MAX_SECTOR
      ensures ok ==> Ready() && View() == old(Opened(mallocOk, heap))
      ensures !ok ==> slots == old(slots) && clock == old(clock)
    {
      if slots.Length > 0 { return true; }
      if bs == 0 || bs > MSC_MAX_SECTOR { return false; }
      var n := if mallocOk then MSC_CACHE_SECTORS else 1;
      var a := new Slot[n](_ => Slot(0, false, 0, []));
      for i := 0 to n
        modifies a
        invariant forall j | 0 <= j < i :: a[j] == Slot(-1, false, 0, heap(j))
      {
        a[i] := Slot(-1, false, 0, heap(i));
      }
      slots := a;
      assert flash[..] == old(flash[..]);
      assert slots[..] == Fresh(bs, flash[..], n, heap).slots;
      FreshInv(bs, flash[..], n, heap);
      return true;
    }

    method SlotFind(lba: nat) returns (r: int)
      ensures r == Find(slots[..], lba)
    {
      for i := 0 to slots.Length
        invariant forall j | 0 <= j < i :: slots[j].lba != lba
      {
        if slots[i].lba == lba {
          return i;
        }
      }
      return -1;
    }

    method FlushSlot(i: nat, f: Flush) returns (ok: bool)
      requires Ready() && i < slots.Length
      modifies slots, flash
      ensures Ready() && (View(), ok) == SectorCache.FlushSlot(old(View()), i, f)
      ensures old(Ticks()) ==> Ticks()
    {
      FlushKeepsOverlay(View(), i, f);
      var s := slots[i];
      if !s.dirty { return true; }
      match f {
        case NoHandle => return false;
        case EraseFailed(junk) => flash[s.lba] := Junk(bs, junk); return false;
        case WriteFailed(junk) => flash[s.lba] := Junk(bs, junk); return false;
        case Flushed =>
          flash[s.lba] := s.data;
          slots[i] := s.(dirty := false);
          return true;
      }
    }

    method FlushAll(outcomes: nat -> Flush)
      requires Valid()
      modifies slots, flash
      ensures Valid()
      ensures old(slots.Length) > 0 ==> Ready() && View() == FlushFrom(old(View()), 0, outcomes)
      ensures old(slots.Length) == 0 ==> View() == old(View())
    {
      for i := 0 to slots.Length
        invariant Valid()
        invariant slots.Length > 0 ==> Ready() && FlushFrom(View(), i, outcomes) == FlushFrom(old(View()), 0, outcomes)
        invariant slots.Length == 0 ==> View() == old(View())
      {
        var _ := FlushSlot(i, outcomes(i));
      }
    }

    /** The victim scan of `slot_bind`. */
    method PickVictim() returns (v: nat)
      requires slots.Length > 0 && Ticks()
      ensures v == Victim(slots[..])
    {
      v := 0;
      var best := 0xFFFF_FFFF;
      var i := 0;
      while i < slots.Length
        invariant 0 <= i <= slots.Length && v < slots.Length
        invariant forall j | 0 <= j < i :: slots[j].lba >= 0
        invariant i > 0 ==> v == Victim(slots[..i]) && best == slots[v].used
        invariant i == 0 ==> v == 0 && best == 0xFFFF_FFFF
      {
        assert slots[..i + 1][..i] == slots[..i];
        if slots[i].lba < 0 {
          v := i;
          VictimIsFirstFree(slots[..], i);
          return;
        }
        if slots[i].used < best {
          best := slots[i].used;
          v := i;
        }
        i := i + 1;
      }
      assert slots[..i] == slots[..];
    }

    /** `slot_bind` for a sector that is not resident. */
    method SlotBind(lba: nat, evict: Flush) returns (v: nat)
      requires Ready() && lba < flash.Length && Find(slots[..], lba) < 0
      requires Ticks()
      modifies slots, flash
      ensures Ticks() && v == old(Victim(slots[..])) && View() == Bind(old(View()), lba, evict)
    {
      v := PickVictim();
      var _ := FlushSlot(v, evict);
      slots[v] := slots[v].(lba := lba, dirty := false);
    }

    /** `outside` is where a range gets past the test and out of its sector; that access is not followed
        any further. */
    method Read10(lba: nat, offset: nat, n: nat, readOk: bool, mallocOk: bool, heap: nat -> Sector)
      returns (r: Option<seq<byte>>, outside: bool)
      requires Valid() && offset < U32 && n < U32 && forall i :: |heap(i)| == bs
      modifies this
      ensures Valid() && (slots == old(slots) || fresh(slots))
      ensures old(slots.Length) == 0 && !(0 < bs <= MSC_MAX_SECTOR) ==> r == None && !outside && View() == old(View())
      ensures old(slots.Length) > 0 || 0 < bs <= MSC_MAX_SECTOR ==>
        && Ready() && View() == old(Opened(mallocOk, heap))
        && (outside <==> SlipsThrough(flash.Length, bs, lba, offset, n))
        && (!outside ==> r == SectorCache.Read10(View(), lba, offset, n, readOk))
    {
      r, outside := None, false;
      var ok := CacheReady(mallocOk, heap);
      if !ok { return; }
      TestIff(View(), lba, offset, n);
      if lba >= flash.Length || (offset + n) % U32 > bs { return; }
      if offset + n > bs { return None, true; }
      var i := SlotFind(lba);
      if i >= 0 {
        r := Some(slots[i].data[offset..offset + n]);
      } else if readOk {
        r := Some(flash[lba][offset..offset + n]);
      }
    }

    method FillSlot(i: nat, load: Load)
      requires i < slots.Length && 0 <= slots[i].lba < flash.Length && Ticks()
      modifies slots
      ensures Ticks() && View() == Fill(old(View()), i, load)
    {
      match load {
        case LoadFailed(junk) => slots[i] := slots[i].(lba := -1, data := Junk(bs, junk));
        case Loaded => slots[i] := slots[i].(data := flash[slots[i].lba]);
      }
    }

    method StoreSlot(i: nat, offset: nat, data: seq<byte>)
      requires i < slots.Length && offset + |data| <= |slots[i].data| && Ticks()
      modifies slots, this`clock
      ensures View() == Store(old(View()), i, offset, data) && Ticks()
    {
      clock := (clock + 1) % U32;
      slots[i] := Slot(slots[i].lba, true, clock, Patch(slots[i].data, offset, data));
    }

    /** A write to a sector that is not resident: it takes over a slot, which is filled from flash
        first unless the whole sector is written. */
    method WriteMiss(lba: nat, offset: nat, data: seq<byte>, evict: Flush, load: Load) returns (ok: bool)
      requires Ready() && Ticks()
      requires Accepts(View(), lba, offset, |data|) && Find(slots[..], lba) < 0
      modifies slots, flash, this`clock
      ensures Ticks() && (View(), ok) == SectorCache.Write10(old(View()), lba, offset, data, evict, load)
    {
      BindFacts(View(), lba, evict);
      var i := SlotBind(lba, evict);
      if !(offset == 0 && |data| == bs) {
        FillSlot(i, load);
        if load.LoadFailed? { return false; }
      }
      StoreSlot(i, offset, data);
      return true;
    }

    /** The part of `tud_msc_write10_cb` after `cache_ready`. */
    method WriteSector(lba: nat, offset: nat, data: seq<byte>, evict: Flush, load: Load)
      returns (ok: bool, outside: bool)
      requires Ready() && Ticks() && offset < U32 && |data| < U32
      modifies slots, flash, this`clock
      ensures Ready() && Ticks() && (outside <==> SlipsThrough(flash.Length, bs, lba, offset, |data|))
      ensures !outside ==> (View(), ok) == SectorCache.Write10(old(View()), lba, offset, data, evict, load)
    {
      WriteKeepsInv(View(), lba, offset, data, evict, load);
      TestIff(View(), lba, offset, |data|);
      ok, outside := false, false;
      if lba >= flash.Length || (offset + |data|) % U32 > bs { return; }
      if offset + |data| > bs { return false, true; }
      var i := SlotFind(lba);
      if i < 0 {
        ok := WriteMiss(lba, offset, data, evict, load);
      } else {
        StoreSlot(i, offset, data);
        ok := true;
      }
    }

    method Write10(lba: nat, offset: nat, data: seq<byte>, evict: Flush, load: Load, mallocOk: bool,
                   heap: nat -> Sector)
      returns (ok: bool, outside: bool)
      requires Valid() && Ticks() && offset < U32 && |data| < U32 && forall i :: |heap(i)| == bs
      modifies this, slots, flash
      ensures Valid() && Ticks() && (slots == old(slots) || fresh(slots))
      ensures old(slots.Length) == 0 && !(0 < bs <= MSC_MAX_SECTOR) ==> !ok && !outside && View() == old(View())
      ensures old(slots.Length) > 0 || 0 < bs <= MSC_MAX_SECTOR ==>
        && old(Inv(Opened(mallocOk, heap)))
        && Ready() && (outside <==> SlipsThrough(flash.Length, bs, lba, offset, |data|))
        && (!outside ==>
            (View(), ok) == SectorCache.Write10(old(Opened(mallocOk, heap)), lba, offset, data, evict, load))
    {
      outside := false;
      ok := CacheReady(mallocOk, heap);
      if !ok { return; }
      ok, outside := WriteSector(lba, offset, data, evict, load);
    }

    /** `tud_msc_start_stop_cb`: only an eject flushes. */
    method StartStop(start: bool, loadEject: bool, outcomes: nat -> Flush)
      requires Valid()
      modifies slots, flash
      ensures Valid()
      ensures loadEject && !start && old(slots.Length) > 0 ==> Ready() && View() == FlushFrom(old(View()), 0, outcomes)
      ensures !loadEject || start || old(slots.Length) == 0 ==> View() == old(View())
    {
      if loadEject && !start { FlushAll(outcomes); }
    }
  }

  lemma {:induction false} VictimIsFirstFree(slots: seq<Slot>, i: nat)
    requires i < |slots| && slots[i].lba < 0 && forall j | 0 <= j < i :: slots[j].lba >= 0
    ensures Victim(slots) == i
  {
    assert slots[Victim(slots)].lba < 0;
  }
}
