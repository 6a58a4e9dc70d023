/** The 32-bit little-endian layout of the ELF specification (TIS ELF 1.2, pages 1-3 to 1-5 and 2-2), and
    what the loader makes of a file laid out so. */
module ElfLayout {
  import opened Common
  import opened FlashLoader

  type u16 = x: int | 0 <= x < 0x1_0000

  /** The value lies at `i`, lowest byte first. */
  predicate Has16(b: seq<byte>, i: nat, v: u16) {
    i + 2 <= |b| && b[i] == v % 256 && b[i + 1] == v / 256
  }

  predicate Has32(b: seq<byte>, i: nat, v: u32) {
    && i + 4 <= |b|
    && b[i] == v % 256 && b[i + 1] == v / 0x100 % 256 && b[i + 2] == v / 0x1_0000 % 256 && b[i + 3] == v / 0x100_0000
  }

  datatype Header = Header(ident: seq<byte>, etype: u16, machine: u16, version: u32, entry: u32, phoff: u32, shoff: u32,
                           flags: u32, ehsize: u16, phentsize: u16, phnum: u16, shentsize: u16, shnum: u16,
                           shstrndx: u16)

  predicate HasHeader(b: seq<byte>, h: Header) {
    && |h.ident| == 16 && 52 <= |b| && b[..16] == h.ident
    && Has16(b, 16, h.etype) && Has16(b, 18, h.machine) && Has32(b, 20, h.version)
    && Has32(b, 24, h.entry) && Has32(b, 28, h.phoff) && Has32(b, 32, h.shoff) && Has32(b, 36, h.flags)
    && Has16(b, 40, h.ehsize) && Has16(b, 42, h.phentsize) && Has16(b, 44, h.phnum)
    && Has16(b, 46, h.shentsize) && Has16(b, 48, h.shnum) && Has16(b, 50, h.shstrndx)
  }

  datatype Segment = Segment(ptype: u32, offset: u32, vaddr: u32, paddr: u32, filesz: u32, memsz: u32, flags: u32,
                             align: u32)

  predicate HasSegment(b: seq<byte>, at: nat, s: Segment) {
    && Has32(b, at, s.ptype) && Has32(b, at + 4, s.offset) && Has32(b, at + 8, s.vaddr) && Has32(b, at + 12, s.paddr)
    && Has32(b, at + 16, s.filesz) && Has32(b, at + 20, s.memsz) && Has32(b, at + 24, s.flags)
    && Has32(b, at + 28, s.align)
  }

  lemma {:induction false} Read16(b: seq<byte>, i: nat, v: u16)
    requires Has16(b, i, v)
    ensures Le16(b, i) == v
  {
  }

  lemma {:induction false} Read32(b: seq<byte>, i: nat, v: u32)
    requires Has32(b, i, v)
    ensures Le32(b, i) == v
  {
    var lo, hi := v % 0x1_0000, v / 0x1_0000;
    Halves(v, lo, hi);
    assert Has16(b, i, lo) && Has16(b, i + 2, hi);
  }

  lemma {:induction false} Halves(v: u32, lo: nat, hi: nat)
    requires v == 0x1_0000 * hi + lo && lo < 0x1_0000
    ensures v % 256 == lo % 256 && v / 0x100 % 256 == lo / 256
    ensures v / 0x1_0000 % 256 == hi % 256 && v / 0x100_0000 == hi / 256
  {
    var l0, l1, h0, h1 := lo % 256, lo / 256, hi % 256, hi / 256;
    assert v == 256 * (0x1_0000 * h1 + 256 * h0 + l1) + l0;
    assert v == 0x1_0000 * (256 * h1 + h0) + (256 * l1 + l0);
    assert v == 0x100_0000 * h1 + (0x1_0000 * h0 + 256 * l1 + l0);
  }

  /** The part of a file that was read, at its own positions. */
  lemma {:induction false} Moved32(file: seq<byte>, at: nat, n: nat, i: nat, v: u32)
    requires at + n <= |file| && i + 4 <= n && Has32(file, at + i, v)
    ensures Le32(file[at..at + n], i) == v
  {
    Read32(file[at..at + n], i, v);
  }

  /** Whose headers the loader takes: ELF, 32-bit, little-endian, for ARM, with a program header table of
      entries that are large enough. */
  predicate Acceptable(h: Header)
    requires |h.ident| == 16
  {
    && h.ident[0] == 0x7f && h.ident[1] == 'E' as int && h.ident[2] == 'L' as int && h.ident[3] == 'F' as int
    && h.ident[4] == 1 && h.ident[5] == 1 && h.machine == 40 && h.phnum > 0 && h.phentsize >= 32
  }

  lemma {:induction false} EhdrIs(file: seq<byte>, h: Header)
    requires HasHeader(file, h)
    ensures ParseEhdr(file)
         == if Acceptable(h) then Some(Ehdr(h.machine, h.entry, h.phoff, h.phentsize, h.phnum)) else None
  {
    var b := file[0..52];
    Moved32(file, 0, 52, 24, h.entry);
    Moved32(file, 0, 52, 28, h.phoff);
    Read16(b, 18, h.machine);
    Read16(b, 42, h.phentsize);
    Read16(b, 44, h.phnum);
    assert b[..4] == h.ident[..4] && b[4] == h.ident[4] && b[5] == h.ident[5];
  }

  lemma {:induction false} NoEhdr(file: seq<byte>)
    requires |file| < 52
    ensures ParseEhdr(file) == None
  {
  }

  /** Where the `i`-th entry of the table lies, in 32 bits. */
  function EntryAt(phoff: u32, phentsize: u16, i: nat): nat { (phoff + i * phentsize) % U32 }

  /** The fields of an entry: the load address is the physical one. */
  lemma {:induction false} PhdrIs(file: seq<byte>, eh: Ehdr, i: nat, at: nat, s: Segment)
    requires at == (eh.phoff + i * eh.phentsize) % U32 && at < 0x8000_0000 && HasSegment(file, at, s)
    ensures ParsePhdr(file, eh, i) == Some(Phdr(s.ptype, s.offset, s.paddr, s.filesz))
  {
    Moved32(file, at, 32, 0, s.ptype);
    Moved32(file, at, 32, 4, s.offset);
    Moved32(file, at, 32, 12, s.paddr);
    Moved32(file, at, 32, 16, s.filesz);
  }

  /** An entry that is not all there, or further than a signed 32-bit offset reaches. */
  lemma {:induction false} NoPhdr(file: seq<byte>, eh: Ehdr, i: nat, at: nat)
    requires at == (eh.phoff + i * eh.phentsize) % U32
    ensures ParsePhdr(file, eh, i) == None <==> at >= 0x8000_0000 || at + 32 > |file|
  {
  }

  // ----- the whole table --------------------------------------------------------------------------------------

  /** What is to be flashed of a table: loadable entries with bytes in the file that the sink's range filter,
      if there is one, lets through; in order. */
  function Loads(table: seq<Segment>, inFlash: Option<(u32, u32) -> bool>): seq<Phdr> {
    if table == [] then []
    else
      var rest, s := Loads(table[..|table| - 1], inFlash), table[|table| - 1];
      if Loadable(s, inFlash) then rest + [Phdr(1, s.offset, s.paddr, s.filesz)] else rest
  }

  predicate Loadable(s: Segment, inFlash: Option<(u32, u32) -> bool>) {
    s.ptype == 1 && s.filesz > 0 && (inFlash.None? || inFlash.value(s.paddr, s.filesz))
  }

  /** The `i`-th entry of the table is in the file. */
  predicate HasEntry(file: seq<byte>, h: Header, i: nat, s: Segment) {
    EntryAt(h.phoff, h.phentsize, i) < 0x8000_0000 && HasSegment(file, EntryAt(h.phoff, h.phentsize, i), s)
  }

  predicate HasTable(file: seq<byte>, h: Header, table: seq<Segment>) {
    forall i | 0 <= i < |table| :: HasEntry(file, h, i, table[i])
  }

  /** Of a file laid out as the specification has it, the loader takes just what is to be flashed. */
  lemma {:induction false} ImageIs(file: seq<byte>, h: Header, table: seq<Segment>, inFlash: Option<(u32, u32) -> bool>)
    requires HasHeader(file, h) && |table| == h.phnum && HasTable(file, h, table)
    ensures Image(file, inFlash)
         == if Acceptable(h) && Loads(table, inFlash) != [] then Some(Loads(table, inFlash)) else None
  {
    EhdrIs(file, h);
    if Acceptable(h) {
      var eh := ParseEhdr(file).value;
      var header, takes := Headers(file, eh), Taken(inFlash);
      forall i: nat | i < |table| ensures Tells(header, takes, inFlash, i, table[i]) {
        EntryTaken(file, eh, h, i, table[i], header, takes, inFlash);
      }
      SegmentsAre(header, takes, table, inFlash);
    }
  }

  /** The loader's view of an entry. */
  predicate Tells(header: nat -> Option<Phdr>, takes: Phdr -> bool, inFlash: Option<(u32, u32) -> bool>,
                  i: nat, s: Segment) {
    header(i) == Some(Phdr(s.ptype, s.offset, s.paddr, s.filesz))
    && takes(Phdr(s.ptype, s.offset, s.paddr, s.filesz)) == Loadable(s, inFlash)
  }

  lemma {:induction false} SegmentsAre(header: nat -> Option<Phdr>, takes: Phdr -> bool, table: seq<Segment>,
                                       inFlash: Option<(u32, u32) -> bool>)
    requires forall i: nat | i < |table| :: Tells(header, takes, inFlash, i, table[i])
    ensures Segments(header, takes, |table|) == Some(Loads(table, inFlash))
  {
    if table != [] {
      var n := |table| - 1;
      SegmentsAre(header, takes, table[..n], inFlash);
      assert Tells(header, takes, inFlash, n, table[n]);
      SegmentsStep(header, takes, n, Loads(table[..n], inFlash));
    }
  }

  lemma {:induction false} EntryTaken(file: seq<byte>, eh: Ehdr, h: Header, i: nat, s: Segment,
                                      header: nat -> Option<Phdr>, takes: Phdr -> bool,
                                      inFlash: Option<(u32, u32) -> bool>)
    requires eh.phoff == h.phoff && eh.phentsize == h.phentsize && HasEntry(file, h, i, s)
    requires header == Headers(file, eh) && takes == Taken(inFlash)
    ensures Tells(header, takes, inFlash, i, s)
  {
    PhdrIs(file, eh, i, EntryAt(h.phoff, h.phentsize, i), s);
  }

  /** One entry that cannot be read spoils the file. */
  lemma {:induction false} NoImage(file: seq<byte>, inFlash: Option<(u32, u32) -> bool>, i: nat)
    requires ParseEhdr(file).Some? && i < ParseEhdr(file).value.phnum
    requires ParsePhdr(file, ParseEhdr(file).value, i).None?
    ensures Image(file, inFlash) == None
  {
    NoSegments(Headers(file, ParseEhdr(file).value), Taken(inFlash), i, ParseEhdr(file).value.phnum);
  }
}
