/** Reading target memory through a CMSIS-DAP adaptor. */
module DapAdaptor {
  import opened Common
  import opened DapPackets
  import opened DapTiling

  /** The words of a block read come one after the other from the address register; the bytes are picked
      by an address that counts on its own. */
  method UnpackAll(mem: nat -> byte, stale: (nat, nat) -> byte, tar: nat, src: nat, unit: nat, blocks: nat)
    returns (bytes: seq<byte>)
    requires IsUnit(unit) && InStep(tar, src, unit)
    ensures bytes == Burst(mem, tar, unit, blocks)
  {
    var at := src;
    bytes := [];
    for i := 0 to blocks
      invariant at == src + Times(i, unit) && bytes == Burst(mem, tar, unit, i)
    {
      TarLane(tar, src, unit, i);
      var word := Word(mem, stale, TarAfter(tar, unit, i), unit);
      UnpackReads(mem, stale, TarAfter(tar, unit, i), at, unit);
      bytes := bytes + Unpack(word, at, unit);
      at := at + unit;
    }
  }

  /** How one page is read if all answers are good: its first block is its largest. */
  function PageEnds(link: Link, blocks: nat): Outcome {
    var most := BlocksPerTransfer(link);
    if most == 0 && BlockEnds(link, 0, Good).Done? then Stuck else BlockEnds(link, Min(blocks, most), Good)
  }

  /** How the rest of a read from `offset` on does: as its first page that does not go well. */
  function RestEnds(link: Link, src: nat, offset: nat, len: nat, unit: nat): Outcome
    requires IsUnit(unit) && offset <= len
    decreases len - offset
  {
    var c := Remaining(src, offset, len);
    if c == 0 then Done
    else
      var r := PageEnds(link, Blocks(c, unit));
      if r.Done? then RestEnds(link, src, offset + c, len, unit) else r
  }

  lemma {:induction false} RestStep(link: Link, src: nat, offset: nat, len: nat, unit: nat, next: nat, r: Outcome)
    requires IsUnit(unit) && offset < len && r == PageEnds(link, Blocks(Remaining(src, offset, len), unit))
    requires r.Done? ==> next == offset + Remaining(src, offset, len)
    ensures RestEnds(link, src, offset, len, unit) == if r.Done? then RestEnds(link, src, next, len, unit) else r
  {
  }

  /** How a whole read does. */
  function ReadEnds(link: Link, src: nat, len: nat): Outcome {
    if len == 0 then Done
    else if len == Unit(src, len) then SingleEnds(link, Good)
    else if !SetUpEnds(link).Done? then SetUpEnds(link)
    else RestEnds(link, src, 0, len, Unit(src, len))
  }

  /** With good answers every read of every size gets all its memory, if and only if the packet suits. */
  lemma {:induction false} ReadsWorkIff(link: Link)
    ensures (forall src: nat, len: nat :: ReadEnds(link, src, len).Done?) <==> Suits(link)
  {
    if Suits(link) {
      SuitableDone(link, 0);
      forall src: nat, len: nat ensures ReadEnds(link, src, len).Done? {
        SuitableRest(link, src, 0, len, Unit(src, len));
      }
    } else {
      FirstPage(link);
      if ReadEnds(link, 0, 4).Done? && ReadEnds(link, 0, PAGE).Done? {
        UnsuitableNot(link, Min(MOST_ACCESSES, BlocksPerTransfer(link)));
      }
    }
  }

  lemma {:induction false} FirstPage(link: Link)
    ensures ReadEnds(link, 0, 4) == SingleEnds(link, Good)
    ensures ReadEnds(link, 0, PAGE).Done? ==> SetUpEnds(link).Done? && PageEnds(link, 256).Done?
  {
    assert Unit(0, PAGE) == 4 && Remaining(0, 0, PAGE) == PAGE && Blocks(PAGE, 4) == 256;
  }

  lemma {:induction false} SuitableRest(link: Link, src: nat, offset: nat, len: nat, unit: nat)
    requires Suits(link) && IsUnit(unit) && offset <= len
    ensures RestEnds(link, src, offset, len, unit).Done?
    decreases len - offset
  {
    var c := Remaining(src, offset, len);
    if c > 0 {
      SuitableDone(link, Min(Blocks(c, unit), BlocksPerTransfer(link)));
      SuitableRest(link, src, offset + c, len, unit);
    }
  }

  /** A bulk adaptor of 512-byte packets asked for a page. */
  lemma {:induction false} LargePacketOverruns()
    ensures ReadEnds(Link(512, false), 0, PAGE).Overruns?
  {
    assert Unit(0, PAGE) == 4 && Remaining(0, 0, PAGE) == PAGE && Blocks(PAGE, 4) == 256;
  }

  ghost predicate AllGood(answers: nat -> Answer) { forall n: nat :: answers(n).Good? }

  /** Some block the host may ask for ends in `r` when it gets that answer. */
  predicate Blames(link: Link, r: Outcome, answer: Answer) {
    exists n: nat | n <= BlocksPerTransfer(link) :: BlockEnds(link, n, answer) == r
  }

  class Adaptor {
    const link: Link
    /** Target memory, as 32-bit addresses see it, and what unused lanes hold. */
    const mem: nat -> byte
    const stale: (nat, nat) -> byte
    /** What becomes of the n-th read. */
    const answers: nat -> Answer
    /** Accesses that fit a transfer. */
    const most: nat
    /** The access port's address register. */
    var tar: nat
    /** Reads asked for, and accesses they made. */
    var count: nat
    var accesses: nat

    constructor (link: Link, mem: nat -> byte, stale: (nat, nat) -> byte, answers: nat -> Answer)
      ensures Valid() && this.link == link && this.mem == mem && this.stale == stale && this.answers == answers
    {
      this.link, this.mem, this.stale, this.answers := link, mem, stale, answers;
      most := BlocksPerTransfer(link);
      tar, count, accesses := 0, 0, 0;
    }

    ghost predicate Valid() { most == BlocksPerTransfer(link) }

    /** One block command, and the picking of the bytes out of its words. */
    method ReadBlock(src: nat, blocks: nat, unit: nat) returns (r: Outcome, bytes: seq<byte>)
      requires SetUpEnds(link).Done? && IsUnit(unit) && InStep(tar, src, unit)
      modifies this
      ensures count == old(count) + 1 && r == BlockEnds(link, blocks, answers(old(count)))
      ensures r.Done? ==> accesses == old(accesses) + blocks && blocks <= MOST_ACCESSES
      ensures r.Done? ==> bytes == Burst(mem, old(tar), unit, blocks) && tar == TarAfter(old(tar), unit, blocks)
      ensures !r.Done? ==> accesses == old(accesses) && bytes == []
    {
      r, bytes := Failed, [];
      var answer := answers(count);
      count := count + 1;
      if blocks > MOST_ACCESSES { return; }
      var result := -1;
      if answer.Silent? {
        if link.hid { return Exits, []; }
      } else {
        result := Received(link, if answer.Good? then ResponseSize(blocks) else 1 + answer.more);
        if result > RECEIVE_SIZE { return Overruns, []; }
      }
      AcceptsIff(result, READ_HEADER + 4 * blocks);
      if !Accepts(result, READ_HEADER + 4 * blocks) || answer.Fault? { return; }
      if answer.Silent? { return Unfilled, []; }
      r := Done;
      bytes := UnpackAll(mem, stale, tar, src, unit, blocks);
      tar := TarAfter(tar, unit, blocks);
      accesses := accesses + blocks;
    }

    /** One turn of the inner loop. */
    method ReadPiece(ghost p: Page, src: nat, blocks: nat, i: nat, x: nat, unit: nat, data: seq<byte>, ghost k: nat)
      returns (r: Outcome, next: nat, y: nat, more: seq<byte>)
      requires Valid() && SetUpEnds(link).Done? && Sound(p) && p == Page(mem, p.a, src, unit, blocks, most)
      requires Progress(p, tar, i, x, data, k) && i < blocks
      modifies this
      ensures count == old(count) + 1 && r == BlockEnds(link, Min(blocks - i, most), answers(old(count)))
      ensures if r.Done? then accesses == old(accesses) + Min(blocks - i, most)
              else Blames(link, r, answers(old(count)))
      ensures if r.Done? then next == i + most && Progress(p, tar, next, y, more, k + 1)
              else more == data && |more| < Times(blocks, unit)
    {
      var n := Min(blocks - i, most);
      ProgressBounds(p, tar, i, x, data, k);
      next, y := i + most, x + Times(n, unit);
      ghost var after, all := TarAfter(tar, unit, n), data + Burst(mem, tar, unit, n);
      assert Progress(p, after, next, y, all, k + 1) by { ProgressStep(p, tar, i, x, data, k, n); }
      var bytes;
      r, bytes := ReadBlock(src + x, n, unit);
      more := data + bytes;
    }

    /** The inner loop: all blocks of one page, whose address has been set up. It goes through the values
        of `Turns`, and where those never reach the end it is stuck. */
    method ReadChunk(src: nat, blocks: nat, unit: nat) returns (r: Outcome, data: seq<byte>)
      requires Valid() && SetUpEnds(link).Done? && IsUnit(unit) && blocks > 0 && InStep(tar, src, unit)
      requires tar % PAGE + Times(blocks, unit) <= PAGE
      modifies this
      ensures data == Mem(mem, old(tar), |data|) && count > old(count)
      ensures r.Done? ==> |data| == Times(blocks, unit) && accesses == old(accesses) + blocks
      ensures !r.Done? ==> |data| < Times(blocks, unit)
      ensures r.Done? || r.Stuck? || Blames(link, r, answers(count - 1))
      ensures r.Stuck? <==> most == 0 && BlockEnds(link, 0, answers(old(count))).Done?
      ensures (r.Stuck? ==> !LoopEnds(0, blocks, most)) && (r.Done? ==> LoopEnds(0, blocks, most))
      ensures AllGood(answers) ==> r == PageEnds(link, blocks)
    {
      ghost var p := Page(mem, tar, src, unit, blocks, most);
      var i: nat, x: nat := 0, 0;
      data, r := [], Done;
      ghost var k: nat := 0;
      ghost var first := BlockEnds(link, Min(blocks, most), Good);
      while i < blocks
        invariant Progress(p, tar, i, x, data, k) && r.Done?
        invariant if i == 0 then count == old(count) else count > old(count) && most > 0
        invariant i > 0 && AllGood(answers) ==> first.Done?
        invariant accesses == old(accesses) + if i < blocks then i else blocks
      {
        if i > 0 && AllGood(answers) { SmallerIsDone(link, Min(blocks, most), Min(blocks - i, most)); }
        r, i, x, data := ReadPiece(p, src, blocks, i, x, unit, data, k);
        if !r.Done? { return; }
        if most == 0 {
          TimesGrows(blocks, unit);
          LoopEndsIff(0, blocks, most);
          return Stuck, data;
        }
        k := k + 1;
      }
      assert LoopEnds(0, blocks, most) by { assert Turns(0, blocks, most, k) >= blocks; }
    }

    /** The command that does it: a request that is too long for a report, and an answer that is not
        accepted or not there, end the program. */
    method RunSetUp() returns (r: Outcome)
      ensures r == SetUpEnds(link)
    {
      if link.hid && SET_UP_SIZE > link.packet { return Exits; }
      var result := Received(link, 3);
      if result > RECEIVE_SIZE { return Overruns; }
      AcceptsIff(result, 2);
      if !Accepts(result, 2) || result == 0 { return Exits; }
      return Done;
    }

    /** Set the address register, and find how many accesses there are to the end of its page or of the
        read. */
    method SetUp(src: nat, offset: nat, len: nat, unit: nat) returns (r: Outcome, blocks: nat)
      requires IsUnit(unit) && Whole(src, unit) && Whole(len, unit) && Whole(offset, unit) && offset < len
      modifies this`tar
      ensures r == SetUpEnds(link)
      ensures tar == (src + offset) % U32 && InStep(tar, src + offset, unit)
      ensures blocks == Blocks(Remaining(src, offset, len), unit) > 0
      ensures Times(blocks, unit) == Remaining(src, offset, len) && tar % PAGE + Times(blocks, unit) <= PAGE
      ensures Tile(offset, len, Times(blocks, unit), unit)
    {
      r := RunSetUp();
      tar := (src + offset) % U32;
      ChunkWhole(src, offset, len, unit);
      WrappedAddress(src + offset);
      blocks := Blocks(Remaining(src, offset, len), unit);
    }

    /** One turn of the outer loop: set up the address and read to the end of its page. */
    method ReadPage(src: nat, offset: nat, len: nat, unit: nat) returns (r: Outcome, bytes: seq<byte>)
      requires Valid() && Wraps(mem) && IsUnit(unit)
      requires Whole(src, unit) && Whole(len, unit) && Whole(offset, unit) && offset < len
      modifies this
      ensures bytes == Mem(mem, src + offset, |bytes|)
      ensures r.Done? ==> |bytes| == Remaining(src, offset, len) && Tile(offset, len, |bytes|, unit)
      ensures r.Done? ==> accesses == old(accesses) + Blocks(|bytes|, unit) && most > 0
      ensures !r.Done? ==> offset + |bytes| < len
      ensures !SetUpEnds(link).Done? ==> r == SetUpEnds(link)
      ensures SetUpEnds(link).Done? ==>
        && count > old(count)
        && (r.Done? || r.Stuck? || Blames(link, r, answers(count - 1)))
        && (r.Stuck? <==> most == 0 && BlockEnds(link, 0, answers(old(count))).Done?)
        && (AllGood(answers) ==> r == PageEnds(link, Blocks(Remaining(src, offset, len), unit)))
    {
      var blocks;
      bytes := [];
      r, blocks := SetUp(src, offset, len, unit);
      if !r.Done? { return; }
      LoopEndsIff(0, blocks, most);
      r, bytes := ReadChunk(src + offset, blocks, unit);
      MemWraps(mem, src + offset, |bytes|);
    }

    /** A single access. */
    method ReadSingle(src: nat, unit: nat) returns (r: Outcome, data: seq<byte>)
      requires IsUnit(unit) && Whole(src, unit)
      modifies this
      ensures count == old(count) + 1 && r == SingleEnds(link, answers(old(count)))
      ensures r.Done? ==> data == Mem(mem, src, unit) && accesses == old(accesses) + 1
      ensures r.Zeroed? ==> data == seq(unit, _ => 0)
    {
      var answer := answers(count);
      count := count + 1;
      if link.hid && SINGLE_SIZE > link.packet { return Exits, []; }
      var result := -1;
      if answer.Silent? {
        if link.hid { return Exits, []; }
      } else {
        result := Received(link, if answer.Good? then 7 else 1 + answer.more);
        if result > RECEIVE_SIZE { return Overruns, []; }
      }
      AcceptsIff(result, 6);
      if !Accepts(result, 6) || !answer.Good? || result == 0 { return Zeroed, seq(unit, _ => 0); }
      UnpackReads(mem, stale, src, src, unit);
      accesses := accesses + 1;
      return Done, Unpack(Word(mem, stale, src, unit), src, unit);
    }

    /** The loop over the pages. */
    method ReadPages(src: nat, len: nat, unit: nat) returns (r: Outcome, data: seq<byte>)
      requires Valid() && Wraps(mem) && IsUnit(unit) && Whole(src, unit) && Whole(len, unit) && len > 0
      modifies this
      ensures data == Mem(mem, src, |data|)
      ensures if r.Done? then |data| == len && accesses == old(accesses) + Blocks(len, unit) else |data| < len
      ensures !SetUpEnds(link).Done? ==> r == SetUpEnds(link)
      ensures SetUpEnds(link).Done? ==>
        && count > old(count)
        && (r.Done? || r.Stuck? || Blames(link, r, answers(count - 1)))
        && (r.Stuck? <==> most == 0 && BlockEnds(link, 0, answers(old(count))).Done?)
        && (AllGood(answers) ==> r == RestEnds(link, src, 0, len, unit))
    {
      data, r := [], Done;
      var offset: nat := 0;
      ghost var rest := RestEnds(link, src, 0, len, unit);
      while offset < len
        invariant offset <= len && Whole(offset, unit) && data == Mem(mem, src, offset) && r.Done?
        invariant if offset == 0 then count == old(count) else count > old(count) && most > 0 && SetUpEnds(link).Done?
        invariant AllGood(answers) ==> RestEnds(link, src, offset, len, unit) == rest
        invariant accesses == old(accesses) + Blocks(offset, unit)
        decreases len - offset
      {
        r, offset, data := NextPage(src, offset, len, unit, data, rest);
        if !r.Done? { return; }
      }
    }

    /** One turn of it. */
    method NextPage(src: nat, offset: nat, len: nat, unit: nat, data: seq<byte>, ghost rest: Outcome)
      returns (r: Outcome, next: nat, more: seq<byte>)
      requires Valid() && Wraps(mem) && IsUnit(unit)
      requires Whole(src, unit) && Whole(len, unit) && Whole(offset, unit) && offset < len
      requires data == Mem(mem, src, offset)
      requires AllGood(answers) ==> RestEnds(link, src, offset, len, unit) == rest
      modifies this
      ensures more == Mem(mem, src, next)
      ensures if r.Done? then offset < next <= len && Whole(next, unit) && most > 0 else next < len
      ensures r.Done? ==> accesses - old(accesses) == Blocks(next, unit) - Blocks(offset, unit)
      ensures !SetUpEnds(link).Done? ==> r == SetUpEnds(link)
      ensures SetUpEnds(link).Done? ==>
        && count > old(count)
        && (r.Done? || r.Stuck? || Blames(link, r, answers(count - 1)))
        && (r.Stuck? <==> most == 0 && BlockEnds(link, 0, answers(old(count))).Done?)
        && (AllGood(answers) ==> rest == if r.Done? then RestEnds(link, src, next, len, unit) else r)
    {
      var bytes;
      r, bytes := ReadPage(src, offset, len, unit);
      next, more := offset + |bytes|, data + bytes;
      MemJoins(mem, src, offset, data, bytes, next);
      if r.Done? { BlocksAdd(offset, |bytes|, unit); }
      if AllGood(answers) && SetUpEnds(link).Done? {
        RestStep(link, src, offset, len, unit, next, r);
      }
    }

    /** The whole read: `len` bytes of memory from `src`, each accessed once. Where a block fails, what
        came before it is in place, and it is the last answer that did it; where no block fits a
        transfer, nothing but a failing empty read ends it. */
    method MemRead(src: nat, len: nat) returns (r: Outcome, data: seq<byte>)
      requires Valid() && src < U32 && Wraps(mem)
      modifies this
      ensures r.Done? ==> |data| == len && accesses == old(accesses) + Blocks(len, Unit(src, len))
      ensures r.Done? || r.Failed? ==> data == Mem(mem, src, |data|)
      ensures r.Failed? ==> |data| < len
      ensures r.Zeroed? ==> data == seq(len, _ => 0)
      ensures len > 0 && len == Unit(src, len) ==> r == SingleEnds(link, answers(old(count)))
      ensures len > 0 && len != Unit(src, len) && !SetUpEnds(link).Done? ==> r == SetUpEnds(link)
      ensures len > 0 && len != Unit(src, len) && SetUpEnds(link).Done? ==>
        && count > old(count)
        && (r.Done? || r.Stuck? || Blames(link, r, answers(count - 1)))
        && (r.Stuck? <==> most == 0 && BlockEnds(link, 0, answers(old(count))).Done?)
      ensures AllGood(answers) ==> r == ReadEnds(link, src, len)
    {
      if len == 0 { return Done, []; }
      var unit := Unit(src, len);
      if unit == len {
        r, data := ReadSingle(src, unit);
      } else {
        r, data := ReadPages(src, len, unit);
      }
    }
  }
}
