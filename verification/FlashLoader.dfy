/** Loading an ELF (or raw) image into flash: what the loader asks of its flash sink, and what
    that leaves in a NOR flash, where erasing sets every bit and writing can only clear bits. */
module FlashLoader {
  import opened Common

  type u32 = x: int | 0 <= x < 0x1_0000_0000

  /** The low 32 bits of a sum or difference of two 32-bit values. */
  function Wrap(a: int): u32
    requires 0 <= a + U32 && a < 2 * U32
  {
    if a < 0 then a + U32 else if a >= U32 then a - U32 else a
  }

  const CHUNK: nat := 2048
  const VERIFY_CHUNK: nat := 256

  // ----- the file ---------------------------------------------------------------------------------

  /** `fread` of exactly `n` bytes at file position `pos`. */
  function ReadOn(file: seq<byte>, pos: nat, n: nat): (r: Option<seq<byte>>)
    ensures r.Some? ==> |r.value| == n
  {
    if pos + n <= |file| then Some(file[pos..pos + n]) else None
  }

  /** `fseek` to a 32-bit signed offset, then `fread`. */
  function ReadAt(file: seq<byte>, off: nat, n: nat): (r: Option<seq<byte>>)
    ensures r.Some? ==> |r.value| == n
  {
    if off < 0x8000_0000 then ReadOn(file, off, n) else None
  }

  function Le16(b: seq<byte>, i: nat): (r: nat)
    requires i + 2 <= |b|
    ensures r < 0x1_0000
  {
    (b[i] as int) + 256 * (b[i + 1] as int)
  }

  function Le32(b: seq<byte>, i: nat): u32
    requires i + 4 <= |b|
  {
    Le16(b, i) + 0x1_0000 * Le16(b, i + 2)
  }

  datatype Ehdr = Ehdr(machine: nat, entry: u32, phoff: u32, phentsize: nat, phnum: nat)

  datatype Phdr = Phdr(ptype: nat, offset: u32, paddr: u32, filesz: u32)

  const EHDR_SIZE: nat := 52
  const PHDR_SIZE: nat := 32

  /** The file header, if it is one this loader takes. */
  function ParseEhdr(file: seq<byte>): Option<Ehdr> {
    var r := ReadAt(file, 0, EHDR_SIZE);
    if r.None? then None
    else
      var b := r.value;
      var eh := Ehdr(Le16(b, 18), Le32(b, 24), Le32(b, 28), Le16(b, 42), Le16(b, 44));
      if b[..4] != [0x7f, 0x45, 0x4c, 0x46] || b[4] != 1 || b[5] != 1 || eh.machine != 40
         || eh.phnum == 0 || eh.phentsize < PHDR_SIZE
      then None else Some(eh)
  }

  function ParsePhdr(file: seq<byte>, eh: Ehdr, i: nat): (r: Option<Phdr>)
  {
    var r := ReadAt(file, (eh.phoff + i * eh.phentsize) % U32, PHDR_SIZE);
    if r.None? then None
    else Some(Phdr(Le32(r.value, 0), Le32(r.value, 4), Le32(r.value, 12), Le32(r.value, 16)))
  }

  /** `seg_flashable`, with the sink's optional range filter. */
  predicate Flashable(ph: Phdr, inFlash: Option<(u32, u32) -> bool>) {
    ph.ptype == 1 && ph.filesz != 0 && (inFlash.Some? ==> inFlash.value(ph.paddr, ph.filesz))
  }

  /** The program header table as the loader reads it: each entry may be unreadable. */
  function Headers(file: seq<byte>, eh: Ehdr): nat -> Option<Phdr> { (i: nat) => ParsePhdr(file, eh, i) }

  function Taken(inFlash: Option<(u32, u32) -> bool>): Phdr -> bool { ph => Flashable(ph, inFlash) }

  /** The headers taken among the first `n`; `None` if one of those cannot be read. */
  function Segments(header: nat -> Option<Phdr>, takes: Phdr -> bool, n: nat): (r: Option<seq<Phdr>>)
    ensures r.Some? ==> forall k | 0 <= k < |r.value| :: takes(r.value[k])
  {
    if n == 0 then Some([])
    else
      var rest, ph := Segments(header, takes, n - 1), header(n - 1);
      if rest.None? || ph.None? then None
      else if takes(ph.value) then Some(rest.value + [ph.value])
      else rest
  }

  lemma {:induction false} NoSegments(header: nat -> Option<Phdr>, takes: Phdr -> bool, i: nat, n: nat)
    requires i < n && header(i).None?
    ensures Segments(header, takes, n).None?
    decreases n
  {
    if i < n - 1 { NoSegments(header, takes, i, n - 1); }
  }

  lemma {:induction false} SegmentsStep(header: nat -> Option<Phdr>, takes: Phdr -> bool, i: nat, segs: seq<Phdr>)
    requires Segments(header, takes, i) == Some(segs) && header(i).Some?
    ensures Segments(header, takes, i + 1) == Some(if takes(header(i).value) then segs + [header(i).value] else segs)
  {
  }

  // ----- what the sink is asked to do ---------------------------------------------------------------

  datatype Event = Erase(addr: u32, len: u32) | Write(addr: u32, data: seq<byte>) | Complete
      | ReadBack(addr: u32, data: seq<byte>)

  /** `data` in pieces of at most `size`, each with its 32-bit address. */
  function Writes(addr: u32, data: seq<byte>): seq<Event>
    decreases |data|
  {
    if data == [] then []
    else
      var n := Min(|data|, CHUNK);
      [Write(addr, data[..n])] + Writes(Wrap(addr + n), data[n..])
  }

  function ReadBacks(addr: u32, data: seq<byte>): seq<Event>
    decreases |data|
  {
    if data == [] then []
    else
      var n := Min(|data|, VERIFY_CHUNK);
      [ReadBack(addr, data[..n])] + ReadBacks(Wrap(addr + n), data[n..])
  }

  /** The file bytes of a segment. */
  function Data(file: seq<byte>, ph: Phdr): Option<seq<byte>> { ReadAt(file, ph.offset, ph.filesz) }

  predicate AllData(file: seq<byte>, segs: seq<Phdr>) {
    forall k | 0 <= k < |segs| :: Data(file, segs[k]).Some?
  }

  function Programs(file: seq<byte>, segs: seq<Phdr>): seq<Event>
    requires AllData(file, segs)
  {
    if segs == [] then []
    else
      var n := |segs| - 1;
      Programs(file, segs[..n]) + Writes(segs[n].paddr, Data(file, segs[n]).value)
  }

  function Verifies(file: seq<byte>, segs: seq<Phdr>): seq<Event>
    requires AllData(file, segs)
  {
    if segs == [] then []
    else
      var n := |segs| - 1;
      Verifies(file, segs[..n]) + ReadBacks(segs[n].paddr, Data(file, segs[n]).value)
  }

  /** Least start, as pass 1 computes it. */
  function Lo(segs: seq<Phdr>): (lo: u32)
    ensures forall k | 0 <= k < |segs| :: lo <= segs[k].paddr
  {
    if segs == [] then 0xffff_ffff
    else
      var rest := Lo(segs[..|segs| - 1]);
      if segs[|segs| - 1].paddr < rest then segs[|segs| - 1].paddr else rest
  }

  /** Greatest end, in 32-bit arithmetic. */
  function Hi(segs: seq<Phdr>): (hi: u32)
    ensures forall k | 0 <= k < |segs| :: Wrap(segs[k].paddr + segs[k].filesz) <= hi
    ensures hi == 0 || exists k | 0 <= k < |segs| :: hi == Wrap(segs[k].paddr + segs[k].filesz)
  {
    if segs == [] then 0
    else
      var rest := Hi(segs[..|segs| - 1]);
      var end := Wrap(segs[|segs| - 1].paddr + segs[|segs| - 1].filesz);
      if end > rest then end else rest
  }

  function Sum(segs: seq<Phdr>): nat {
    if segs == [] then 0 else Sum(segs[..|segs| - 1]) + segs[|segs| - 1].filesz
  }

  /** The 32-bit running total of a load. */
  function Bytes(segs: seq<Phdr>): u32 {
    if segs == [] then 0 else Wrap(Bytes(segs[..|segs| - 1]) + segs[|segs| - 1].filesz)
  }

  lemma {:induction false} BytesIsSum(segs: seq<Phdr>)
    requires Sum(segs) < U32
    ensures Bytes(segs) == Sum(segs)
  {
    if segs != [] { BytesIsSum(segs[..|segs| - 1]); }
  }

  /** The segments a load is about: those of a valid header with at least one flashable one. */
  function Image(file: seq<byte>, inFlash: Option<(u32, u32) -> bool>): (r: Option<seq<Phdr>>)
    ensures r.Some? ==> r.value != [] && forall k | 0 <= k < |r.value| :: r.value[k].filesz > 0
  {
    var eh := ParseEhdr(file);
    if eh.None? then None
    else
      var segs := Segments(Headers(file, eh.value), Taken(inFlash), eh.value.phnum);
      if segs.None? || segs.value == [] then None else segs
  }

  /** Everything a successful load asks of the sink, in order. */
  function Plan(file: seq<byte>, segs: seq<Phdr>, verify: bool): seq<Event>
    requires AllData(file, segs)
  {
    [Erase(Lo(segs), Wrap(Hi(segs) - Lo(segs)))] + Programs(file, segs) + [Complete]
    + if verify then Verifies(file, segs) else []
  }
}
