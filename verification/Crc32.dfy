/** The CRC routines of the firmware and the proof that all of them compute the CRC defined in
    `Crc32Words`, for every memory, base address and length. */
module Crc32 {
  import opened Common
  import opened Crc32Words
  import opened Crc32Table

  /** A byte, most significant bit first. */
  type Byte = s: seq<bool> | |s| == 8 witness [false, false, false, false, false, false, false, false]

  const ZERO: Byte := [false, false, false, false, false, false, false, false]

  /** Target memory, addressed modulo 2^32. */
  type Memory = nat -> Byte

  function At(mem: Memory, base: nat, i: nat): Byte { mem((base + i) % U32) }

  const INIT: Word := [
    true, true, true, true, true, true, true, true,
    true, true, true, true, true, true, true, true,
    true, true, true, true, true, true, true, true,
    true, true, true, true, true, true, true, true]

  /** Left fold over the first `n` items. */
  function Fold<W, B>(step: (W, B) -> W, init: W, data: nat -> B, n: nat): W {
    if n == 0 then init else step(Fold(step, init, data, n - 1), data(n - 1))
  }

  function FeedByte(): (Word, Byte) -> Word { (w: Word, b: Byte) => FeedAll(w, b) }

  function Range(mem: Memory, base: nat): nat -> Byte { (i: nat) => At(mem, base, i) }

  /** The CRC of the `n` bytes at `base`: feed every bit of every byte. */
  function Crc(mem: Memory, base: nat, n: nat): Word {
    Fold(FeedByte(), INIT, Range(mem, base), n)
  }

  /** The bits of a message, first byte first and the most significant bit of each first. */
  function Bits(message: seq<Byte>): seq<bool> {
    if message == [] then [] else message[0] + Bits(message[1..])
  }

  /** The message lies in memory from `base` on. */
  ghost predicate Lies(mem: Memory, base: nat, message: seq<Byte>) {
    forall i | 0 <= i < |message| :: mem((base + i) % U32) == message[i]
  }

  lemma {:induction false} BitsSnoc(message: seq<Byte>, b: Byte)
    ensures Bits(message + [b]) == Bits(message) + b
  {
    if message == [] {
      assert message + [b] == [b] && Bits([b][1..]) == [];
    } else {
      BitsSnoc(message[1..], b);
      assert (message + [b])[1..] == message[1..] + [b];
    }
  }

  lemma {:induction false} FoldMessage(step: (Word, Byte) -> Word, init: Word, data: nat -> Byte, message: seq<Byte>)
    requires forall w: Word, b: Byte :: step(w, b) == FeedAll(w, b)
    requires forall i | 0 <= i < |message| :: data(i) == message[i]
    ensures Fold(step, init, data, |message|) == FeedAll(init, Bits(message))
  {
    if message != [] {
      var front, b := message[..|message| - 1], message[|message| - 1];
      FoldMessage(step, init, data, front);
      MessageSnoc(init, message, front, b);
    }
  }

  lemma {:induction false} MessageSnoc(init: Word, message: seq<Byte>, front: seq<Byte>, b: Byte)
    requires message == front + [b]
    ensures FeedAll(init, Bits(message)) == FeedAll(FeedAll(init, Bits(front)), b)
  {
    BitsSnoc(front, b);
    FeedAllThen(init, Bits(front), b);
  }

  /** The CRC is that of the message that lies there, as one string of bits. */
  lemma {:induction false} CrcOfMessage(mem: Memory, base: nat, message: seq<Byte>)
    requires Lies(mem, base, message)
    ensures Crc(mem, base, |message|) == FeedAll(INIT, Bits(message))
  {
    FoldMessage(FeedByte(), INIT, Range(mem, base), message);
  }

  lemma {:induction false} CrcOfMessages(mem: Memory, base: nat, len: nat)
    ensures forall message | Lies(mem, base, message) && |message| == len ::
              Crc(mem, base, len) == FeedAll(INIT, Bits(message))
  {
    forall message | Lies(mem, base, message) && |message| == len
      ensures Crc(mem, base, len) == FeedAll(INIT, Bits(message))
    {
      CrcOfMessage(mem, base, message);
    }
  }

  // ----- one byte, one word ------------------------------------------------------------------------

  /** `crc32_calc`: shift up by a byte, add the table entry the top byte and the data select. */
  function Calc(crc: Word, data: Byte): Word {
    Xor(ShlN(crc, 8), Entry(Xor(crc, Place(data))[..8]))
  }

  /** One look-up per byte does what feeding its eight bits does. */
  lemma {:induction false} CalcFeeds(crc: Word, data: Byte)
    ensures Calc(crc, data) == FeedAll(crc, data)
  {
    var x := Xor(crc, Place(data));
    TableEntry(x[..8]);
    FeedAllIsDivN(crc, data);
    DivNSplits(x, 8);
    assert ShlN(x, 8) == ShlN(crc, 8);
  }

  /** `read_be4`: four bytes as a word, first byte on top. */
  function ReadBe4(a: Byte, b: Byte, c: Byte, d: Byte): Word { a + b + c + d }

  /** The hardware unit: add the word, then 32 division steps. */
  function UnitStep(crc: Word, word: Word): Word { DivN(Xor(crc, word), 32) }

  /** One word written to the unit does what feeding its four bytes does. */
  lemma {:induction false} UnitFeeds(crc: Word, a: Byte, b: Byte, c: Byte, d: Byte)
    ensures UnitStep(crc, ReadBe4(a, b, c, d)) == FeedAll(FeedAll(FeedAll(FeedAll(crc, a), b), c), d)
  {
    var w := ReadBe4(a, b, c, d);
    assert Place(w) == w;
    FeedAllIsDivN(crc, w);
    FeedAllThen(crc, a + b + c, d);
    FeedAllThen(crc, a + b, c);
    FeedAllThen(crc, a, b);
  }

  /** One turn of the bit-wise tail loop. */
  method DivStep(crc0: Word) returns (crc: Word)
    ensures crc == Div(crc0)
  {
    if crc0[0] {
      crc := Xor(Shl(crc0), POLY);
    } else {
      crc := Shl(crc0);
    }
  }

  /** What the tail loop does to the register for one byte: add it on top, then eight steps. */
  function TailStep(crc: Word, data: Byte): Word { DivN(Xor(crc, Place(data)), 8) }

  /** The inner loop of the bit-wise tail; it, too, does what feeding eight bits does. */
  method TailByte(crc0: Word, data: Byte) returns (crc: Word)
    ensures crc == TailStep(crc0, data) == FeedAll(crc0, data)
  {
    crc := Xor(crc0, Place(data));
    ghost var start := crc;
    for i := 0 to 8
      invariant DivN(crc, 8 - i) == DivN(start, 8)
    {
      crc := DivStep(crc);
    }
    FeedAllIsDivN(crc0, data);
  }

  // ----- the loops, whatever the step is ---------------------------------------------------------------

  method MemRead<B>(data: nat -> B, offset: nat, bytes: array<B>, n: nat)
    requires n <= bytes.Length
    modifies bytes
    ensures forall i | 0 <= i < n :: bytes[i] == data(offset + i)
  {
    for i := 0 to n
      invariant forall j | 0 <= j < i :: bytes[j] == data(offset + j)
    {
      bytes[i] := data(offset + i);
    }
  }

  lemma {:induction false} FoldSame<W(!new), B(!new)>(f: (W, B) -> W, g: (W, B) -> W, init: W, data: nat -> B, n: nat)
    requires forall w, b :: f(w, b) == g(w, b)
    ensures Fold(f, init, data, n) == Fold(g, init, data, n)
  {
    if n > 0 { FoldSame(f, g, init, data, n - 1); }
  }

  /** How many reads of at most `chunk` bytes it takes. */
  function Reads(len: nat, chunk: nat): nat
    requires chunk > 0
  {
    if len == 0 then 0 else if len <= chunk then 1 else 1 + Reads(len - chunk, chunk)
  }

  predicate AllRead(readOk: nat -> bool, n: nat) { n == 0 || (AllRead(readOk, n - 1) && readOk(n - 1)) }

  lemma {:induction false} NotAllRead(readOk: nat -> bool, m: nat, n: nat)
    requires m <= n && (!AllRead(readOk, m) || (m < n && !readOk(m)))
    ensures !AllRead(readOk, n)
  {
    if m + 1 < n { NotAllRead(readOk, m, n - 1); }
  }

  /** The loop of `generic_crc32`: read in chunks, rounded up to whole words, and take the bytes
      one by one.  `readOk(k)` is the outcome of the k-th read. */
  method ByteLoop<W, B>(step: (W, B) -> W, init: W, zero: B, data: nat -> B, len: nat, chunk: nat, readOk: nat -> bool)
    returns (result: Option<W>)
    requires chunk > 0 && chunk % 4 == 0
    ensures result.Some? ==> result.value == Fold(step, init, data, len)
    ensures result.Some? <==> AllRead(readOk, Reads(len, chunk))
  {
    var crc := init;
    var bytes := new B[chunk](_ => zero);
    var offset, accesses := 0, 0;
    while offset < len
      invariant crc == Fold(step, init, data, Min(offset, len))
      invariant AllRead(readOk, accesses)
      invariant accesses + (if offset < len then Reads(len - offset, chunk) else 0) == Reads(len, chunk)
      decreases len - offset
    {
      var readLen := Min(chunk, len - offset);
      if !readOk(accesses) {
        NotAllRead(readOk, accesses, Reads(len, chunk));
        return None;
      }
      accesses := accesses + 1;
      MemRead(data, offset, bytes, (readLen + 3) / 4 * 4);
      for i := 0 to readLen
        invariant crc == Fold(step, init, data, offset + i)
      {
        crc := step(crc, bytes[i]);
      }
      offset := offset + chunk;
    }
    return Some(crc);
  }

  /** The word loop of `stm32_crc32`: 1 KiB reads, four bytes at a time into the unit. */
  method WordLoop<W(!new), B(!new)>(unit: (W, B, B, B, B) -> W, ghost step: (W, B) -> W, init: W, zero: B,
                                    data: nat -> B, len: nat, readOk: nat -> bool)
    returns (result: Option<W>, accesses: nat)
    requires len % 4 == 0
    requires forall w, a, b, c, d :: unit(w, a, b, c, d) == step(step(step(step(w, a), b), c), d)
    ensures result.Some? ==> result.value == Fold(step, init, data, len)
    ensures result.Some? <==> AllRead(readOk, Reads(len, 1024))
    ensures result.Some? ==> accesses == Reads(len, 1024)
  {
    var crc := init;
    var bytes := new B[1024](_ => zero);
    var offset := 0;
    accesses := 0;
    while offset < len
      invariant offset % 4 == 0
      invariant crc == Fold(step, init, data, Min(offset, len))
      invariant AllRead(readOk, accesses)
      invariant accesses + (if offset < len then Reads(len - offset, 1024) else 0) == Reads(len, 1024)
      decreases len - offset
    {
      var readLen := Min(1024, len - offset);
      ChunkMod(len, offset);
      if !readOk(accesses) {
        NotAllRead(readOk, accesses, Reads(len, 1024));
        return None, accesses;
      }
      accesses := accesses + 1;
      MemRead(data, offset, bytes, readLen);
      crc := WriteWords(unit, step, init, data, offset, bytes, readLen, crc);
      offset := offset + 1024;
    }
    return Some(crc), accesses;
  }

  lemma {:induction false} ChunkMod(len: nat, offset: nat)
    requires len % 4 == 0 && offset % 4 == 0 && offset <= len
    ensures Min(1024, len - offset) % 4 == 0 && (offset + 1024) % 4 == 0
  {
  }

  /** Feed one buffer to the unit. */
  method WriteWords<W(!new), B(!new)>(unit: (W, B, B, B, B) -> W, ghost step: (W, B) -> W, ghost init: W,
                                      ghost data: nat -> B, ghost offset: nat, bytes: array<B>, n: nat, crc0: W)
    returns (crc: W)
    requires n % 4 == 0 && n <= bytes.Length
    requires forall w, a, b, c, d :: unit(w, a, b, c, d) == step(step(step(step(w, a), b), c), d)
    requires forall i | 0 <= i < n :: bytes[i] == data(offset + i)
    requires crc0 == Fold(step, init, data, offset)
    ensures crc == Fold(step, init, data, offset + n)
  {
    crc := crc0;
    var i := 0;
    while i < n
      invariant 0 <= i <= n && i % 4 == 0
      invariant crc == Fold(step, init, data, offset + i)
    {
      FoldFour(step, init, data, offset + i);
      assert i + 4 <= n;
      assert bytes[i] == data(offset + i) && bytes[i + 1] == data(offset + i + 1);
      assert bytes[i + 2] == data(offset + i + 2) && bytes[i + 3] == data(offset + i + 3);
      crc := unit(crc, bytes[i], bytes[i + 1], bytes[i + 2], bytes[i + 3]);
      i := i + 4;
    }
  }

  /** The tail of `stm32_crc32`: the bytes after the last whole word, one by one. */
  method TailLoop<W(!new), B(!new)>(tail: (W, B) -> W, ghost step: (W, B) -> W, ghost init: W, zero: B,
                                    data: nat -> B, from: nat, len: nat, crc0: W, readOk: bool)
    returns (result: Option<W>)
    requires from <= len < from + 4 && crc0 == Fold(step, init, data, from)
    requires forall w, b :: tail(w, b) == step(w, b)
    ensures result.Some? ==> result.value == Fold(step, init, data, len)
    ensures result.Some? <==> readOk || from == len
  {
    var crc := crc0;
    if from < len {
      if !readOk { return None; }
      var bytes := new B[1024](_ => zero);
      MemRead(data, from, bytes, len - from);
      for i := 0 to len - from
        invariant forall j | 0 <= j < len - from :: bytes[j] == data(from + j)
        invariant crc == Fold(step, init, data, from + i)
      {
        crc := tail(crc, bytes[i]);
      }
    }
    return Some(crc);
  }

  lemma {:induction false} FoldFour<W, B>(step: (W, B) -> W, init: W, data: nat -> B, n: nat)
    ensures Fold(step, init, data, n + 4)
      == step(step(step(step(Fold(step, init, data, n), data(n)), data(n + 1)), data(n + 2)), data(n + 3))
  {
    assert Fold(step, init, data, n + 2) == step(step(Fold(step, init, data, n), data(n)), data(n + 1));
  }

  // ----- the two routines ------------------------------------------------------------------------------

  /** `generic_crc32` computes the CRC, in whatever chunks it reads. */
  method GenericCrc32(mem: Memory, base: nat, len: nat, chunk: nat, readOk: nat -> bool) returns (result: Option<Word>)
    requires chunk > 0 && chunk % 4 == 0
    ensures result.Some? ==> result.value == Crc(mem, base, len)
    ensures result.Some? ==>
      forall message | Lies(mem, base, message) && |message| == len :: result.value == FeedAll(INIT, Bits(message))
    ensures result.Some? <==> AllRead(readOk, Reads(len, chunk))
  {
    var perByte := (w: Word, b: Byte) => Calc(w, b);
    forall w: Word, b: Byte ensures perByte(w, b) == FeedByte()(w, b) { CalcFeeds(w, b); }
    FoldSame(perByte, FeedByte(), INIT, Range(mem, base), len);
    result := ByteLoop(perByte, INIT, ZERO, Range(mem, base), len, chunk, readOk);
    CrcOfMessages(mem, base, len);
  }

  /** Whole words through the hardware unit, then the odd bytes bit by bit. */
  method WordsAndTail(data: nat -> Byte, len: nat, readOk: nat -> bool) returns (result: Option<Word>)
    ensures result.Some? ==> result.value == Fold(FeedByte(), INIT, data, len)
    ensures result.Some? <==> AllRead(readOk, Reads(len / 4 * 4, 1024) + if len % 4 > 0 then 1 else 0)
  {
    var unit := (w: Word, a: Byte, b: Byte, c: Byte, d: Byte) => UnitStep(w, ReadBe4(a, b, c, d));
    ghost var step := FeedByte();
    forall w: Word, a: Byte, b: Byte, c: Byte, d: Byte
      ensures unit(w, a, b, c, d) == step(step(step(step(w, a), b), c), d)
    {
      UnitFeeds(w, a, b, c, d);
    }
    var adjusted := len / 4 * 4;
    assert len == adjusted + len % 4;
    var accesses;
    result, accesses := WordLoop(unit, step, INIT, ZERO, data, adjusted, readOk);
    if result.None? {
      NotAllRead(readOk, Reads(adjusted, 1024), Reads(adjusted, 1024) + 1);
      return;
    }
    var tail := (w: Word, b: Byte) => TailStep(w, b);
    forall w: Word, b: Byte ensures tail(w, b) == step(w, b) { FeedAllIsDivN(w, b); }
    result := TailLoop(tail, step, INIT, ZERO, data, adjusted, len, result.value, readOk(accesses));
  }

  /** `stm32_crc32`. */
  method Stm32Crc32(mem: Memory, base: nat, len: nat, readOk: nat -> bool) returns (result: Option<Word>)
    ensures result.Some? ==> result.value == Crc(mem, base, len)
    ensures result.Some? ==>
      forall message | Lies(mem, base, message) && |message| == len :: result.value == FeedAll(INIT, Bits(message))
    ensures result.Some? <==> AllRead(readOk, Reads(len / 4 * 4, 1024) + if len % 4 > 0 then 1 else 0)
  {
    CrcOfMessages(mem, base, len);
    result := WordsAndTail(Range(mem, base), len, readOk);
  }
}
