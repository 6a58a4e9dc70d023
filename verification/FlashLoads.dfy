/** What a load that reports success has done. */
module FlashLoads {
  import opened Common
  import opened FlashLoader
  import opened NorFlash
  import opened FlashSinks

  /** The calls a load made, as a NOR flash sees them: right on every segment, blank in the rest of
      the sectors of the span, untouched elsewhere; and the byte count reported is exact. */
  lemma {:induction false} SuccessfulLoad(sector: nat, v: byte, sink: Sink, s0: seq<Event>, s: seq<Event>,
                                          file: seq<byte>, segs: seq<Phdr>, x: nat)
    requires Loaded(sink, s0, s, file, segs, true) && sector > 0 && Proper(segs) && TopFree(segs)
    ensures forall k | 0 <= k < |segs| && Inside(segs[k], x) ::
              Evolve(sector, v, s[|s0|..], x) == FileByte(file, segs[k], x)
    ensures (forall k | 0 <= k < |segs| :: !Inside(segs[k], x)) ==>
              Evolve(sector, v, s[|s0|..], x) == if Erased(sector, Lo(segs), Span(segs), x) then 255 else v
    ensures Bytes(segs) == Sum(segs)
  {
    assert s[|s0|..] == Plan(file, segs, sink.canRead);
    LoadedFlash(sector, v, file, segs, sink.canRead, x);
    SumFits(segs);
    BytesIsSum(segs);
  }

  /** However a load ends, successful or not, and however its segments lie, the flash outside the span's
      sectors and outside the segments is as it was. */
  lemma {:induction false} AnyLoad(sector: nat, v: byte, sink: Sink, s0: seq<Event>, s: seq<Event>, file: seq<byte>,
                                   segs: seq<Phdr>, ok: bool, x: nat)
    requires Loaded(sink, s0, s, file, segs, ok) && sector > 0 && NoWrap(segs)
    requires !Erased(sector, Lo(segs), Span(segs), x) && forall k | 0 <= k < |segs| :: !Inside(segs[k], x)
    ensures Evolve(sector, v, s[|s0|..], x) == v
  {
    var made := s[|s0|..];
    assert forall i | 0 <= i < |made| :: made[i] == s[|s0| + i];
    OutsideUntouched(sector, v, segs, made, x);
  }

  /** A read-back of the byte at `x` that expects `b` there. */
  predicate Expects(e: Event, x: nat, b: byte) {
    e.ReadBack? && e.addr <= x < e.addr + |e.data| && e.data[x - e.addr] == b
  }

  predicate Reads(es: seq<Event>, x: nat, b: byte) { exists i | 0 <= i < |es| :: Expects(es[i], x, b) }

  lemma {:induction false} ReadsThen(a: seq<Event>, b: seq<Event>, x: nat, v: byte)
    requires Reads(a, x, v) || Reads(b, x, v)
    ensures Reads(a + b, x, v)
  {
    if Reads(a, x, v) {
      var i :| 0 <= i < |a| && Expects(a[i], x, v);
      assert Expects((a + b)[i], x, v);
    } else {
      var i :| 0 <= i < |b| && Expects(b[i], x, v);
      assert Expects((a + b)[|a| + i], x, v);
    }
  }

  lemma {:induction false} ReadBacksCover(addr: u32, data: seq<byte>, x: nat)
    requires addr + |data| <= U32 && addr <= x < addr + |data|
    ensures Reads(ReadBacks(addr, data), x, data[x - addr])
    decreases |data|
  {
    var n := Min(|data|, VERIFY_CHUNK);
    var first, rest := [ReadBack(addr, data[..n])], ReadBacks(Wrap(addr + n), data[n..]);
    if x < addr + n {
      assert Expects(first[0], x, data[x - addr]);
    } else {
      ReadBacksCover(addr + n, data[n..], x);
      assert data[n..][x - addr - n] == data[x - addr];
    }
    ReadsThen(first, rest, x, data[x - addr]);
  }

  lemma {:induction false} VerifiesCover(file: seq<byte>, segs: seq<Phdr>, k: nat, x: nat)
    requires AllData(file, segs) && NoWrap(segs) && k < |segs| && Inside(segs[k], x)
    ensures Reads(Verifies(file, segs), x, FileByte(file, segs[k], x))
  {
    var n := |segs| - 1;
    if k < n {
      VerifiesCover(file, segs[..n], k, x);
    } else {
      ReadBacksCover(segs[n].paddr, Data(file, segs[n]).value, x);
    }
    ReadsThen(Verifies(file, segs[..n]), ReadBacks(segs[n].paddr, Data(file, segs[n]).value), x,
        FileByte(file, segs[k], x));
  }

  /** Whatever the sink is, if it can be read then success means that every byte of every segment
      was read back after programming and was the file's. */
  lemma {:induction false} VerifiedLoad(sink: Sink, s0: seq<Event>, s: seq<Event>, file: seq<byte>, segs: seq<Phdr>,
                                        k: nat, x: nat)
    requires Loaded(sink, s0, s, file, segs, true) && sink.canRead
    requires NoWrap(segs) && k < |segs| && Inside(segs[k], x)
    ensures exists i | |s0| <= i < |s| ::
              && Expects(s[i], x, FileByte(file, segs[k], x))
              && sink.reading(i, s[i].addr, |s[i].data|) == Some(s[i].data)
  {
    VerifiesCover(file, segs, k, x);
    var upto := s0 + ([EraseAll(segs)] + Programs(file, segs) + [Complete]);
    var verifies := Verifies(file, segs);
    assert s == upto + verifies;
    var i :| 0 <= i < |verifies| && Expects(verifies[i], x, FileByte(file, segs[k], x));
    assert s[|upto| + i] == verifies[i];
    assert Passes(sink, |upto| + i, s[|upto| + i]);
  }

  /** A raw image, when its load has succeeded: its bytes from `base` on, blank in the rest of its sectors,
      and everything else as it was. */
  lemma {:induction false} RawLoad(sector: nat, v: byte, sink: Sink, s0: seq<Event>, s: seq<Event>, file: seq<byte>,
                                   base: u32, x: nat, segs: seq<Phdr>)
    requires 0 < |file| < 0x8000_0000 && base + |file| <= U32 && sector > 0 && segs == [Raw(file, base)]
    requires Loaded(sink, s0, s, file, segs, true)
    ensures Evolve(sector, v, s[|s0|..], x)
         == if base <= x < base + |file| then file[x - base]
            else if Erased(sector, base, |file|, x) then 255 else v
  {
    RawSegment(file, base, segs, x);
    SuccessfulLoad(sector, v, sink, s0, s, file, segs, x);
  }

  lemma {:induction false} RawSegment(file: seq<byte>, base: u32, segs: seq<Phdr>, x: nat)
    requires 0 < |file| < 0x8000_0000 && base + |file| <= U32 && segs == [Raw(file, base)]
    ensures Proper(segs) && TopFree(segs) && AllData(file, segs) && Lo(segs) == base && Span(segs) == |file|
    ensures Inside(segs[0], x) <==> base <= x < base + |file|
    ensures Inside(segs[0], x) ==> FileByte(file, segs[0], x) == file[x - base]
  {
    OneSpan(segs[0]);
  }

  predicate AllWrites(es: seq<Event>) { forall e | e in es :: e.Write? && 0 < |e.data| <= 2048 }

  predicate AllReadBacks(es: seq<Event>) { forall e | e in es :: e.ReadBack? && 0 < |e.data| <= 256 }

  /** What a load asks for, in which order: one erase, the writes, one completion, and then, if it can,
      the reads. */
  lemma {:induction false} PlanShape(file: seq<byte>, segs: seq<Phdr>, verify: bool)
    requires AllData(file, segs)
    ensures var plan, n := Plan(file, segs, verify), |Programs(file, segs)|;
      && |plan| >= n + 2 && plan[0].Erase? && AllWrites(plan[1..n + 1]) && plan[n + 1].Complete?
      && AllReadBacks(plan[n + 2..]) && (!verify ==> |plan| == n + 2)
  {
    var plan, n := Plan(file, segs, verify), |Programs(file, segs)|;
    AreWrites(file, segs);
    AreReadBacks(file, segs);
    assert plan[1..n + 1] == Programs(file, segs);
    assert plan[n + 2..] == if verify then Verifies(file, segs) else [];
  }

  lemma {:induction false} AreWrites(file: seq<byte>, segs: seq<Phdr>)
    requires AllData(file, segs)
    ensures AllWrites(Programs(file, segs))
  {
    if segs != [] {
      var n := |segs| - 1;
      AreWrites(file, segs[..n]);
      RangeWrites(segs[n].paddr, Data(file, segs[n]).value);
    }
  }

  lemma {:induction false} RangeWrites(addr: u32, data: seq<byte>)
    ensures AllWrites(Writes(addr, data))
    decreases |data|
  {
    if data != [] { RangeWrites(Wrap(addr + Min(|data|, CHUNK)), data[Min(|data|, CHUNK)..]); }
  }

  lemma {:induction false} AreReadBacks(file: seq<byte>, segs: seq<Phdr>)
    requires AllData(file, segs)
    ensures AllReadBacks(Verifies(file, segs))
  {
    if segs != [] {
      var n := |segs| - 1;
      AreReadBacks(file, segs[..n]);
      RangeReadBacks(segs[n].paddr, Data(file, segs[n]).value);
    }
  }

  lemma {:induction false} RangeReadBacks(addr: u32, data: seq<byte>)
    ensures AllReadBacks(ReadBacks(addr, data))
    decreases |data|
  {
    if data != [] { RangeReadBacks(Wrap(addr + Min(|data|, VERIFY_CHUNK)), data[Min(|data|, VERIFY_CHUNK)..]); }
  }
}
