/** What a load leaves in NOR flash. */
module NorFlash {
  import opened Common
  import opened BitStreams
  import opened FlashLoader

  /** Bitwise and. */
  function And(a: nat, b: nat): (r: nat)
    ensures r <= a && r <= b
  {
    if a == 0 || b == 0 then 0
    else 2 * And(a / 2, b / 2) + (if a % 2 == 1 && b % 2 == 1 then 1 else 0)
  }

  /** A bit survives a write only where both have it. */
  lemma {:induction false} AndBits(a: nat, b: nat, i: nat)
    ensures Bit(And(a, b), i) == (Bit(a, i) && Bit(b, i))
    decreases i
  {
    if a == 0 || b == 0 {
      BitOfZero(i);
    } else {
      AndParity(a, b);
      if i > 0 { AndBits(a / 2, b / 2, i - 1); }
    }
  }

  lemma {:induction false} AndParity(a: nat, b: nat)
    requires a > 0 && b > 0
    ensures And(a, b) / 2 == And(a / 2, b / 2) && (And(a, b) % 2 == 1 <==> a % 2 == 1 && b % 2 == 1)
  {
    var h, l := And(a / 2, b / 2), if a % 2 == 1 && b % 2 == 1 then 1 else 0;
    assert And(a, b) == 2 * h + l;
  }

  lemma {:induction false} AndOnes(k: nat, ones: nat, b: nat)
    requires ones + 1 == Pow2(k) && b < Pow2(k)
    ensures And(ones, b) == b
    decreases k
  {
    if k > 0 && b > 0 { AndOnes(k - 1, ones / 2, b / 2); }
  }

  lemma {:induction false} AndErased(b: byte)
    ensures And(255, b) == b
  {
    assert Pow2(8) == 256;
    AndOnes(8, 255, b);
  }

  function AndByte(a: byte, b: byte): byte { And(a, b) }

  /** Erasing takes whole sectors. */
  predicate Erased(sector: nat, addr: nat, len: nat, x: nat)
    requires sector > 0
  {
    len > 0 && addr / sector <= x / sector <= (addr + len - 1) / sector
  }

  /** What one event does to the byte at `x`. */
  function Effect(sector: nat, v: byte, e: Event, x: nat): byte
    requires sector > 0
  {
    match e
    case Erase(addr, len) => if Erased(sector, addr, len, x) then 255 else v
    case Write(addr, data) => if addr <= x < addr + |data| then AndByte(v, data[x - addr]) else v
    case Complete => v
    case ReadBack(_, _) => v
  }

  /** The byte at `x` after a trace, starting from `v`. */
  function Evolve(sector: nat, v: byte, trace: seq<Event>, x: nat): byte
    requires sector > 0
    decreases |trace|
  {
    if trace == [] then v else Evolve(sector, Effect(sector, v, trace[0], x), trace[1..], x)
  }

  lemma {:induction false} EvolveThen(sector: nat, v: byte, a: seq<Event>, b: seq<Event>, x: nat)
    requires sector > 0
    ensures Evolve(sector, v, a + b, x) == Evolve(sector, Evolve(sector, v, a, x), b, x)
    decreases |a|
  {
    if a == [] {
      assert a + b == b;
    } else {
      assert (a + b)[1..] == a[1..] + b;
      EvolveThen(sector, Effect(sector, v, a[0], x), a[1..], b, x);
    }
  }

  /** Reading back changes nothing. */
  lemma {:induction false} ReadBacksInert(sector: nat, v: byte, addr: u32, data: seq<byte>, x: nat)
    requires sector > 0
    ensures Evolve(sector, v, ReadBacks(addr, data), x) == v
    decreases |data|
  {
    if data != [] {
      var n := Min(|data|, VERIFY_CHUNK);
      ReadBacksInert(sector, v, Wrap(addr + n), data[n..], x);
      assert ReadBacks(addr, data)[1..] == ReadBacks(Wrap(addr + n), data[n..]);
    }
  }

  lemma {:induction false} VerifiesInert(sector: nat, v: byte, file: seq<byte>, segs: seq<Phdr>, x: nat)
    requires sector > 0 && AllData(file, segs)
    ensures Evolve(sector, v, Verifies(file, segs), x) == v
  {
    if segs != [] {
      var n := |segs| - 1;
      VerifiesInert(sector, v, file, segs[..n], x);
      ReadBacksInert(sector, v, segs[n].paddr, Data(file, segs[n]).value, x);
      EvolveThen(sector, v, Verifies(file, segs[..n]), ReadBacks(segs[n].paddr, Data(file, segs[n]).value), x);
    }
  }

  /** `v` with the bytes of `data`, placed at `addr`, and-ed in at `x`. */
  function Merge(v: byte, addr: nat, data: seq<byte>, x: nat): byte {
    if addr <= x < addr + |data| then AndByte(v, data[x - addr]) else v
  }

  lemma {:induction false} MergeSplit(v: byte, addr: nat, data: seq<byte>, n: nat, x: nat)
    requires n <= |data|
    ensures Merge(v, addr, data, x) == Merge(Merge(v, addr, data[..n], x), addr + n, data[n..], x)
  {
    if addr <= x < addr + n {
    } else if addr + n <= x < addr + |data| {
      assert data[n..][x - addr - n] == data[x - addr];
    }
  }

  lemma {:induction false} WriteEffect(sector: nat, v: byte, addr: u32, data: seq<byte>, rest: seq<Event>, x: nat)
    requires sector > 0
    ensures Evolve(sector, v, [Write(addr, data)] + rest, x) == Evolve(sector, Merge(v, addr, data, x), rest, x)
  {
    assert ([Write(addr, data)] + rest)[1..] == rest;
  }

  /** A range written in chunks is and-ed into flash exactly once, and nothing else is touched. */
  lemma {:induction false} WritesEffect(sector: nat, v: byte, addr: u32, data: seq<byte>, x: nat)
    requires sector > 0 && addr + |data| <= U32
    ensures Evolve(sector, v, Writes(addr, data), x) == Merge(v, addr, data, x)
    decreases |data|
  {
    if data != [] {
      var n := Min(|data|, CHUNK);
      MergeSplit(v, addr, data, n, x);
      WriteEffect(sector, v, addr, data[..n], Writes(Wrap(addr + n), data[n..]), x);
      var v1 := Merge(v, addr, data[..n], x);
      if n < |data| {
        WritesEffect(sector, v1, addr + n, data[n..], x);
      }
    }
  }

  predicate Inside(ph: Phdr, x: nat) { ph.paddr <= x < ph.paddr + ph.filesz }

  /** No segment wraps round the 32-bit address space; it may end exactly at the top of it. */
  predicate NoWrap(segs: seq<Phdr>) {
    forall k | 0 <= k < |segs| :: segs[k].paddr + segs[k].filesz <= U32
  }

  predicate Apart(a: Phdr, b: Phdr) { a.paddr + a.filesz <= b.paddr || b.paddr + b.filesz <= a.paddr }

  predicate Disjoint(segs: seq<Phdr>) {
    forall j, k | 0 <= j < k < |segs| :: Apart(segs[j], segs[k])
  }

  lemma {:induction false} ApartAt(segs: seq<Phdr>, j: nat, k: nat)
    requires Disjoint(segs) && j < |segs| && k < |segs| && j != k
    ensures Apart(segs[j], segs[k])
  {
    if j < k { assert Apart(segs[j], segs[k]); } else { assert Apart(segs[k], segs[j]); }
  }

  /** The file byte that belongs at address `x`. */
  function FileByte(file: seq<byte>, ph: Phdr, x: nat): byte
    requires Data(file, ph).Some? && Inside(ph, x)
  {
    file[ph.offset + (x - ph.paddr)]
  }

  /** What the last segment of a list adds. */
  lemma {:induction false} ProgramsSplit(sector: nat, v: byte, file: seq<byte>, segs: seq<Phdr>, x: nat)
    requires sector > 0 && AllData(file, segs) && NoWrap(segs) && segs != []
    ensures AllData(file, segs[..|segs| - 1])
    ensures var v1 := Evolve(sector, v, Programs(file, segs[..|segs| - 1]), x); var last := segs[|segs| - 1];
            Evolve(sector, v, Programs(file, segs), x)
            == if Inside(last, x) then AndByte(v1, FileByte(file, last, x)) else v1
  {
    var n := |segs| - 1;
    var before, data := Programs(file, segs[..n]), Data(file, segs[n]).value;
    EvolveThen(sector, v, before, Writes(segs[n].paddr, data), x);
    WritesEffect(sector, Evolve(sector, v, before, x), segs[n].paddr, data, x);
  }

  lemma {:induction false} ProgramsOutside(sector: nat, v: byte, file: seq<byte>, segs: seq<Phdr>, x: nat)
    requires sector > 0 && AllData(file, segs) && NoWrap(segs)
    requires forall k | 0 <= k < |segs| :: !Inside(segs[k], x)
    ensures Evolve(sector, v, Programs(file, segs), x) == v
  {
    if segs != [] {
      ProgramsSplit(sector, v, file, segs, x);
      ProgramsOutside(sector, v, file, segs[..|segs| - 1], x);
    }
  }

  lemma {:induction false} OnlyInside(segs: seq<Phdr>, k: nat, x: nat)
    requires Disjoint(segs) && k < |segs| && Inside(segs[k], x)
    ensures forall j | 0 <= j < |segs| && j != k :: !Inside(segs[j], x)
  {
    forall j | 0 <= j < |segs| && j != k ensures !Inside(segs[j], x) {
      ApartAt(segs, j, k);
    }
  }

  lemma {:induction false} ProgramsInside(sector: nat, v: byte, file: seq<byte>, segs: seq<Phdr>, k: nat, x: nat)
    requires sector > 0 && AllData(file, segs) && NoWrap(segs) && Disjoint(segs)
    requires k < |segs| && Inside(segs[k], x)
    ensures Evolve(sector, v, Programs(file, segs), x) == AndByte(v, FileByte(file, segs[k], x))
  {
    var n := |segs| - 1;
    OnlyInside(segs, k, x);
    ProgramsSplit(sector, v, file, segs, x);
    if k < n {
      ProgramsInside(sector, v, file, segs[..n], k, x);
    } else {
      ProgramsOutside(sector, v, file, segs[..n], x);
    }
  }

  // ----- the erased span ------------------------------------------------------------------------------

  /** The length the loader erases: a 32-bit difference. */
  function Span(segs: seq<Phdr>): u32 { Wrap(Hi(segs) - Lo(segs)) }

  predicate InSpan(segs: seq<Phdr>, x: nat) { Lo(segs) <= x < Lo(segs) + Span(segs) }

  predicate Proper(segs: seq<Phdr>) {
    && segs != [] && NoWrap(segs) && Disjoint(segs)
    && forall k | 0 <= k < |segs| :: segs[k].filesz > 0
  }

  /** No segment touches the top of memory, or there is no other. */
  predicate TopFree(segs: seq<Phdr>) {
    |segs| == 1 || forall k | 0 <= k < |segs| :: segs[k].paddr + segs[k].filesz < U32
  }

  lemma {:induction false} SpanCovers(segs: seq<Phdr>, k: nat, x: nat)
    requires Proper(segs) && TopFree(segs) && k < |segs| && Inside(segs[k], x)
    ensures InSpan(segs, x)
  {
    if |segs| == 1 {
      assert Lo(segs[..0]) == 0xffff_ffff && Hi(segs[..0]) == 0;
    } else {
      assert segs[k].paddr + segs[k].filesz <= Hi(segs);
    }
  }

  /** And it is no larger than it has to be: it begins and ends where a segment does. */
  lemma {:induction false} SpanIsTight(segs: seq<Phdr>)
    requires Proper(segs) && TopFree(segs)
    ensures exists j | 0 <= j < |segs| :: segs[j].paddr == Lo(segs)
    ensures exists k | 0 <= k < |segs| :: segs[k].paddr + segs[k].filesz == Lo(segs) + Span(segs)
  {
    LoIsStart(segs);
    if |segs| == 1 {
      assert Lo(segs[..0]) == 0xffff_ffff && Hi(segs[..0]) == 0;
    } else {
      assert Wrap(segs[0].paddr + segs[0].filesz) <= Hi(segs);
    }
  }

  lemma {:induction false} LoIsStart(segs: seq<Phdr>)
    requires segs != []
    ensures exists j | 0 <= j < |segs| :: segs[j].paddr == Lo(segs)
  {
    var front, last := segs[..|segs| - 1], segs[|segs| - 1];
    if last.paddr < Lo(front) {
      assert last.paddr == Lo(segs);
    } else if front != [] {
      LoIsStart(front);
      var j :| 0 <= j < |front| && front[j].paddr == Lo(front);
      assert segs[j] == front[j];
    }
  }

  /** Beside a segment that ends at the top of memory, every other ends below it. */
  lemma {:induction false} BelowTop(segs: seq<Phdr>, k: nat, j: nat)
    requires Proper(segs) && k < |segs| && j < |segs| && segs[k].paddr + segs[k].filesz == U32
    ensures j != k ==> segs[j].paddr + segs[j].filesz <= segs[k].paddr
    ensures Wrap(segs[j].paddr + segs[j].filesz) == if j == k then 0 else segs[j].paddr + segs[j].filesz
  {
    if j != k { ApartAt(segs, j, k); }
  }

  /** A segment that ends at the top of memory does not count towards `Hi`; beside another one
      the span therefore stops short of it. */
  lemma {:induction false} SpanMissesTop(segs: seq<Phdr>, k: nat)
    requires Proper(segs) && |segs| > 1 && k < |segs| && segs[k].paddr + segs[k].filesz == U32
    ensures Hi(segs) > Lo(segs) && Lo(segs) + Span(segs) == Hi(segs) <= segs[k].paddr
  {
    var j := if k == 0 then 1 else 0;
    BelowTop(segs, k, j);
    assert Wrap(segs[j].paddr + segs[j].filesz) <= Hi(segs) && Lo(segs) <= segs[j].paddr;
    var m :| 0 <= m < |segs| && Hi(segs) == Wrap(segs[m].paddr + segs[m].filesz);
    BelowTop(segs, k, m);
  }

  /** The span is exactly covered by the segments if and only if none of several touches the top. */
  lemma {:induction false} SpanCoversIff(segs: seq<Phdr>)
    requires Proper(segs)
    ensures (forall k, x | 0 <= k < |segs| && Inside(segs[k], x) :: InSpan(segs, x)) <==> TopFree(segs)
  {
    if TopFree(segs) {
      forall k, x | 0 <= k < |segs| && Inside(segs[k], x) ensures InSpan(segs, x) { SpanCovers(segs, k, x); }
    } else {
      var k :| 0 <= k < |segs| && segs[k].paddr + segs[k].filesz == U32;
      SpanMissesTop(segs, k);
      assert Inside(segs[k], U32 - 1) && !InSpan(segs, U32 - 1);
    }
  }

  // ----- the whole load -------------------------------------------------------------------------------

  /** Everything after the erase. */
  lemma {:induction false} AfterErase(sector: nat, v: byte, file: seq<byte>, segs: seq<Phdr>, verify: bool, x: nat)
    requires sector > 0 && AllData(file, segs)
    ensures Evolve(sector, v, Plan(file, segs, verify), x)
      == Evolve(sector, Effect(sector, v, Erase(Lo(segs), Span(segs)), x), Programs(file, segs), x)
  {
    var first, programs := [Erase(Lo(segs), Span(segs))], Programs(file, segs);
    var tail := if verify then Verifies(file, segs) else [];
    var v1 := Effect(sector, v, first[0], x);
    var v2 := Evolve(sector, v1, programs, x);
    assert Plan(file, segs, verify) == first + (programs + ([Complete] + tail));
    EvolveThen(sector, v, first, programs + ([Complete] + tail), x);
    assert first[1..] == [];
    EvolveThen(sector, v1, programs, [Complete] + tail, x);
    assert ([Complete] + tail)[1..] == tail;
    if verify { VerifiesInert(sector, v2, file, segs, x); }
  }

  /** Loading is right, byte by byte: a segment's bytes are the file's, the rest of the erased span
      (whole sectors) is blank, and everything else is as it was. */
  lemma {:induction false} LoadedFlash(sector: nat, v: byte, file: seq<byte>, segs: seq<Phdr>, verify: bool, x: nat)
    requires sector > 0 && AllData(file, segs) && Proper(segs) && TopFree(segs)
    ensures forall k | 0 <= k < |segs| && Inside(segs[k], x) ::
              Evolve(sector, v, Plan(file, segs, verify), x) == FileByte(file, segs[k], x)
    ensures (forall k | 0 <= k < |segs| :: !Inside(segs[k], x)) ==>
              Evolve(sector, v, Plan(file, segs, verify), x)
              == if Erased(sector, Lo(segs), Span(segs), x) then 255 else v
  {
    AfterErase(sector, v, file, segs, verify, x);
    var v1 := Effect(sector, v, Erase(Lo(segs), Span(segs)), x);
    forall k | 0 <= k < |segs| && Inside(segs[k], x)
      ensures Evolve(sector, v, Plan(file, segs, verify), x) == FileByte(file, segs[k], x)
    {
      TopFreeErased(sector, segs, k, x);
      ProgramsInside(sector, v1, file, segs, k, x);
      AndErased(FileByte(file, segs[k], x));
    }
    if forall k | 0 <= k < |segs| :: !Inside(segs[k], x) { ProgramsOutside(sector, v1, file, segs, x); }
  }

  lemma {:induction false} InSpanErased(sector: nat, segs: seq<Phdr>, x: nat)
    requires sector > 0 && InSpan(segs, x)
    ensures Erased(sector, Lo(segs), Span(segs), x)
  {
    DivMonotone(sector, Lo(segs), x);
    DivMonotone(sector, x, Lo(segs) + Span(segs) - 1);
  }

  lemma {:induction false} DivMonotone(d: nat, a: nat, b: nat)
    requires d > 0 && a <= b
    ensures a / d <= b / d
  {
    assert a == d * (a / d) + a % d && b == d * (b / d) + b % d;
    if a / d > b / d { MulGap(d, a / d, b / d); }
  }

  lemma {:induction false} MulGap(d: nat, p: nat, q: nat)
    requires p > q
    ensures d * p >= d * q + d
  {
    if p > q + 1 { MulGap(d, p - 1, q); }
    assert d * p == d * (p - 1) + d;
  }

  /** What a load leaves at a byte of a segment, the span being what it may. */
  lemma {:induction false} LoadedInside(sector: nat, v: byte, file: seq<byte>, segs: seq<Phdr>, verify: bool, k: nat,
                                        x: nat)
    requires sector > 0 && AllData(file, segs) && NoWrap(segs) && Disjoint(segs) && k < |segs| && Inside(segs[k], x)
    ensures var b := FileByte(file, segs[k], x);
            Evolve(sector, v, Plan(file, segs, verify), x)
            == if Erased(sector, Lo(segs), Span(segs), x) then b else AndByte(v, b)
  {
    AfterErase(sector, v, file, segs, verify, x);
    ProgramsInside(sector, Effect(sector, v, Erase(Lo(segs), Span(segs)), x), file, segs, k, x);
    AndErased(FileByte(file, segs[k], x));
  }

  /** The byte at `x` after a load, as a function of what it was before. */
  function Loading(sector: nat, file: seq<byte>, segs: seq<Phdr>, verify: bool, x: nat): byte -> byte
    requires sector > 0 && AllData(file, segs)
  {
    (v: byte) => Evolve(sector, v, Plan(file, segs, verify), x)
  }

  lemma {:induction false} SetIff(f: byte -> byte, erased: bool, b: byte)
    requires forall v: byte :: f(v) == if erased then b else AndByte(v, b)
    ensures (forall v: byte :: f(v) == b) <==> erased || b == 0
  {
    assert f(0) == if erased then b else AndByte(0, b);
  }

  /** A load is right at a byte of a segment whatever flash held before, if and only if the byte lies in
      an erased sector or is zero, which programming makes of anything. */
  lemma {:induction false} LoadRightIff(sector: nat, file: seq<byte>, segs: seq<Phdr>, verify: bool, k: nat, x: nat)
    requires sector > 0 && AllData(file, segs) && Proper(segs) && k < |segs| && Inside(segs[k], x)
    ensures (forall v: byte :: Loading(sector, file, segs, verify, x)(v) == FileByte(file, segs[k], x))
            <==> Erased(sector, Lo(segs), Span(segs), x) || FileByte(file, segs[k], x) == 0
  {
    var f, b := Loading(sector, file, segs, verify, x), FileByte(file, segs[k], x);
    var erased := Erased(sector, Lo(segs), Span(segs), x);
    forall v: byte ensures f(v) == if erased then b else AndByte(v, b) {
      LoadedInside(sector, v, file, segs, verify, k, x);
    }
    SetIff(f, erased, b);
  }

  lemma {:induction false} TopFreeErased(sector: nat, segs: seq<Phdr>, k: nat, x: nat)
    requires sector > 0 && Proper(segs) && TopFree(segs) && k < |segs| && Inside(segs[k], x)
    ensures Erased(sector, Lo(segs), Span(segs), x)
  {
    SpanCovers(segs, k, x);
    InSpanErased(sector, segs, x);
  }

  /** Two segments of one byte each, at the bottom and at the top of memory: the upper one is programmed
      over what was there. */
  lemma {:induction false} TopExample(verify: bool)
    ensures var segs := [Phdr(1, 0, 0, 1), Phdr(1, 0, 0xffff_ffff, 1)];
            && Proper(segs) && AllData([0xff], segs)
            && Evolve(4096, 0, Plan([0xff], segs, verify), 0xffff_ffff) == 0
            && FileByte([0xff], segs[1], 0xffff_ffff) == 0xff
  {
    var segs := [Phdr(1, 0, 0, 1), Phdr(1, 0, 0xffff_ffff, 1)];
    assert Apart(segs[0], segs[1]);
    SpanMissesTop(segs, 1);
    var k :| 0 <= k < |segs| && Hi(segs) == Wrap(segs[k].paddr + segs[k].filesz);
    assert Hi(segs) == 1;
    LoadedInside(4096, 0, [0xff], segs, verify, 1, 0xffff_ffff);
  }

  // ----- what is reported -----------------------------------------------------------------------------

  function Interval(a: nat, n: nat): (s: set<nat>)
    ensures forall x: nat :: x in s <==> a <= x < a + n
    ensures |s| == n
  {
    if n == 0 then {} else Interval(a, n - 1) + {a + n - 1}
  }

  /** The addresses the segments occupy; disjoint segments occupy as many as they have bytes. */
  function Addresses(segs: seq<Phdr>): (s: set<nat>)
    requires Disjoint(segs)
    ensures forall x | x in s :: exists k | 0 <= k < |segs| :: Inside(segs[k], x)
    ensures |s| == Sum(segs)
  {
    if segs == [] then {}
    else
      var n := |segs| - 1;
      var rest, last := Addresses(segs[..n]), Interval(segs[n].paddr, segs[n].filesz);
      LastApart(segs, segs[..n], rest);
      assert rest !! last;
      rest + last
  }

  lemma {:induction false} LastApart(segs: seq<Phdr>, front: seq<Phdr>, rest: set<nat>)
    requires Disjoint(segs) && segs != [] && front == segs[..|segs| - 1]
    requires forall x | x in rest :: exists k | 0 <= k < |front| :: Inside(front[k], x)
    ensures forall x | x in rest :: !Inside(segs[|segs| - 1], x)
    ensures forall x | x in rest :: exists k | 0 <= k < |segs| :: Inside(segs[k], x)
  {
    forall x | x in rest
      ensures !Inside(segs[|segs| - 1], x) && exists k | 0 <= k < |segs| :: Inside(segs[k], x)
    {
      var k :| 0 <= k < |front| && Inside(front[k], x);
      assert Inside(segs[k], x);
      ApartAt(segs, k, |segs| - 1);
    }
  }

  lemma {:induction false} SubsetSize(s: set<nat>, t: set<nat>)
    requires s <= t
    ensures |s| <= |t|
  {
    assert t == s + (t - s);
  }

  predicate Uncovered(segs: seq<Phdr>, x: nat) { x < U32 && forall k | 0 <= k < |segs| :: !Inside(segs[k], x) }

  lemma {:induction false} AddressesBelow(segs: seq<Phdr>, x: nat)
    requires Disjoint(segs) && NoWrap(segs) && x in Addresses(segs)
    ensures x < U32 && !Uncovered(segs, x)
  {
    var k :| 0 <= k < |segs| && Inside(segs[k], x);
  }

  lemma {:induction false} AddressesHas(segs: seq<Phdr>, k: nat, x: nat)
    requires Disjoint(segs) && k < |segs| && Inside(segs[k], x)
    ensures x in Addresses(segs)
  {
    var n := |segs| - 1;
    var rest, last := Addresses(segs[..n]), Interval(segs[n].paddr, segs[n].filesz);
    assert Addresses(segs) == rest + last;
    if k < n { AddressesHas(segs[..n], k, x); } else { assert x in last; }
  }

  lemma {:induction false} SizeBelow(s: set<nat>, n: nat)
    requires forall x | x in s :: x < n
    ensures |s| <= n
  {
    SubsetSize(s, Interval(0, n));
  }

  lemma {:induction false} SizeBelowBut(s: set<nat>, n: nat, gap: nat)
    requires gap < n && gap !in s && forall x | x in s :: x < n
    ensures |s| < n
  {
    SizeBelow(s + {gap}, n);
  }

  lemma {:induction false} SizeAbove(s: set<nat>, n: nat)
    requires forall x: nat | x < n :: x in s
    ensures |s| >= n
  {
    SubsetSize(Interval(0, n), s);
  }

  lemma {:induction false} GapFits(segs: seq<Phdr>, gap: nat)
    requires Disjoint(segs) && NoWrap(segs) && Uncovered(segs, gap)
    ensures Sum(segs) < U32
  {
    var used := Addresses(segs);
    forall x | x in used ensures x < U32 && x != gap { AddressesBelow(segs, x); }
    SizeBelowBut(used, U32, gap);
  }

  lemma {:induction false} Covers(segs: seq<Phdr>, x: nat)
    requires Disjoint(segs) && x < U32 && !Uncovered(segs, x)
    ensures x in Addresses(segs)
  {
    var k :| 0 <= k < |segs| && Inside(segs[k], x);
    AddressesHas(segs, k, x);
  }

  lemma {:induction false} FullFills(segs: seq<Phdr>)
    requires Disjoint(segs) && NoWrap(segs) && forall x: nat :: !Uncovered(segs, x)
    ensures Sum(segs) >= U32
  {
    forall x: nat | x < U32 ensures x in Addresses(segs) { Covers(segs, x); }
    SizeAbove(Addresses(segs), U32);
  }

  lemma {:induction false} SumBounded(segs: seq<Phdr>)
    requires Disjoint(segs) && NoWrap(segs)
    ensures Sum(segs) <= U32
  {
    forall x | x in Addresses(segs) ensures x < U32 { AddressesBelow(segs, x); }
    SizeBelow(Addresses(segs), U32);
  }

  /** Disjoint segments hold more bytes than 32 bits can count if and only if they fill all of memory. */
  lemma {:induction false} SumFitsIff(segs: seq<Phdr>)
    requires Disjoint(segs) && NoWrap(segs)
    ensures Sum(segs) <= U32
    ensures Sum(segs) < U32 <==> exists x: nat :: Uncovered(segs, x)
  {
    SumBounded(segs);
    if x: nat :| Uncovered(segs, x) { GapFits(segs, x); } else { FullFills(segs); }
  }

  /** So the reported byte count is exact unless one of several segments ends at the top of memory. */
  lemma {:induction false} SumFits(segs: seq<Phdr>)
    requires Proper(segs) && TopFree(segs)
    ensures Sum(segs) < U32
  {
    if |segs| == 1 {
      assert Sum(segs[..0]) == 0;
    } else {
      GapFits(segs, U32 - 1);
    }
  }

  // ----- every outcome --------------------------------------------------------------------------------

  /** What a load may ask of the sink, whether or not it runs to its end. */
  predicate Allowed(e: Event, segs: seq<Phdr>) {
    match e
    case Erase(addr, len) => addr == Lo(segs) && len == Span(segs)
    case Write(addr, data) => exists k | 0 <= k < |segs| :: Part(addr, |data|, segs[k])
    case _ => true
  }

  predicate Part(addr: nat, n: nat, ph: Phdr) { ph.paddr <= addr && addr + n <= ph.paddr + ph.filesz }

  /** However far a load got, flash outside the sectors of the erased span and outside the segments is
      untouched. */
  lemma {:induction false} OutsideUntouched(sector: nat, v: byte, segs: seq<Phdr>, trace: seq<Event>, x: nat)
    requires sector > 0
    requires forall i | 0 <= i < |trace| :: Allowed(trace[i], segs)
    requires !Erased(sector, Lo(segs), Span(segs), x) && forall k | 0 <= k < |segs| :: !Inside(segs[k], x)
    ensures Evolve(sector, v, trace, x) == v
    decreases |trace|
  {
    if trace != [] {
      assert Allowed(trace[0], segs);
      if trace[0].Write? {
        var k :| 0 <= k < |segs| && Part(trace[0].addr, |trace[0].data|, segs[k]);
        assert !Inside(segs[k], x);
      }
      OutsideUntouched(sector, v, segs, trace[1..], x);
    }
  }
}
