/** What a CMSIS-DAP host may ask for at once, and what becomes of the answer. */
module DapPackets {
  import opened Common

  type uint16 = x: nat | x < 0x1_0000

  const READ_HEADER: nat := 3
  /** The host's receive buffer, and the most accesses it asks for in one block. */
  const RECEIVE_SIZE: nat := 65
  const MOST_ACCESSES: nat := 256
  /** The requests that set up an access and that make a single one. */
  const SET_UP_SIZE: nat := 18
  const SINGLE_SIZE: nat := 19

  /** An adaptor as the host knows it: the packet size it reports, and whether it is on HID. */
  datatype Link = Link(packet: uint16, hid: bool)

  /** How a read ends. `Failed`: refused, or not accepted. `Stuck`: the loop around it goes round for
      ever. `Zeroed`: a single access failed and its destination was cleared. `Overruns`: the answer is
      received past the end of the buffer. `Unfilled`: there was no answer, and one is taken from a
      buffer that was never filled. `Exits`: the host program ends itself. */
  datatype Outcome = Done | Failed | Stuck | Zeroed | Overruns | Unfilled | Exits

  /** What the adaptor does with a command: answer it as asked, answer it with a fault and `more` bytes
      after the command byte, or not answer it. */
  datatype Answer = Good | Fault(more: nat) | Silent

  // ----- sizes ---------------------------------------------------------------------------------------------

  /** `packet_size` is the adaptor's packet size, plus one for the report number on HID; that is taken
      off again here. The subtractions are on 64-bit unsigned values. */
  function BlocksPerTransfer(link: Link): nat {
    var packetSize := link.packet + if link.hid then 1 else 0;
    var result := Minus64(packetSize, READ_HEADER);
    (if link.hid then Minus64(result, 1) else result) / 4
  }

  function Minus64(a: nat, b: nat): (r: nat)
    requires a < U64 && b < U64
    ensures r < U64 && (a >= b ==> r == a - b) && (a < b ==> r == a + U64 - b)
  {
    if a >= b then a - b else a + U64 - b
  }

  /** Sizes below the header wrap to a limit that no read reaches. */
  lemma {:induction false} LimitIs(link: Link)
    ensures link.packet >= READ_HEADER ==> BlocksPerTransfer(link) == (link.packet - READ_HEADER) / 4
    ensures link.packet < READ_HEADER ==> BlocksPerTransfer(link) >= 0x3fff_ffff_ffff_ffff
  {
  }

  /** A block response: the command, the header and a word for each access. */
  function ResponseSize(blocks: nat): nat { 1 + READ_HEADER + 4 * blocks }

  /** The limit leaves out the command byte, so a block within it fits the adaptor's packet unless it is a
      full one and the packet size is 3 modulo 4, when it is one byte too long; nothing fits a packet
      smaller than the header. */
  lemma {:induction false} FitsIff(link: Link, blocks: nat)
    requires blocks <= BlocksPerTransfer(link)
    ensures link.packet >= READ_HEADER ==> ResponseSize(blocks) <= link.packet + 1
    ensures ResponseSize(blocks) <= link.packet
      <==> link.packet >= READ_HEADER && (link.packet % 4 != 3 || blocks < BlocksPerTransfer(link))
  {
    LimitIs(link);
    if link.packet >= READ_HEADER {
      var q := (link.packet - READ_HEADER) / 4;
      assert link.packet - READ_HEADER == 4 * q + (link.packet - READ_HEADER) % 4;
    }
  }

  // ----- answers -------------------------------------------------------------------------------------------

  /** `dap_run_cmd`: whether a result (a length, or negative for an error) is accepted as an answer with
      `expected` bytes after the command byte. One is taken off and the rest compared as unsigned. */
  predicate Accepts(result: int, expected: nat) { (result - 1) % U64 >= expected }

  /** It accepts errors and empty answers along with those that are long enough. */
  lemma {:induction false} AcceptsIff(result: int, expected: nat)
    requires -0x8000_0000 <= result < 0x8000_0000 && expected < U32
    ensures Accepts(result, expected) <==> result <= 0 || result > expected
  {
    if result <= 0 {
      assert result - 1 == U64 * -1 + (U64 + result - 1);
      ModU64(result - 1, -1, U64 + result - 1);
    } else {
      ModU64(result - 1, 0, result - 1);
    }
  }

  lemma {:induction false} ModU64(x: int, q: int, r: nat)
    requires x == U64 * q + r && r < U64
    ensures x % U64 == r
  {
  }

  /** Bytes that arrive for an answer of `size`: as many as the packet allows, and on HID always a whole
      report. */
  function Received(link: Link, size: nat): nat { if link.hid then link.packet else Min(size, link.packet) }

  /** What comes of setting up an access, which an adaptor may take but not refuse. */
  function SetUpEnds(link: Link): Outcome {
    if link.packet < (if link.hid then SET_UP_SIZE else 3) then Exits
    else if Received(link, 3) > RECEIVE_SIZE then Overruns
    else Done
  }

  /** What comes of asking for a block. */
  function BlockEnds(link: Link, blocks: nat, answer: Answer): Outcome {
    if blocks > MOST_ACCESSES then Failed
    else match answer
      case Silent => if link.hid then Exits else Unfilled
      case Fault(more) => if Received(link, 1 + more) > RECEIVE_SIZE then Overruns else Failed
      case Good =>
        if Received(link, ResponseSize(blocks)) > RECEIVE_SIZE then Overruns
        else if ResponseSize(blocks) > link.packet then Failed
        else Done
  }

  /** What comes of a single access; there the unfilled answer is cleared beforehand. */
  function SingleEnds(link: Link, answer: Answer): Outcome {
    if link.hid && (link.packet < SINGLE_SIZE || answer.Silent?) then Exits
    else match answer
      case Silent => Zeroed
      case Fault(more) => if Received(link, 1 + more) > RECEIVE_SIZE then Overruns else Zeroed
      case Good =>
        if Received(link, 7) > RECEIVE_SIZE then Overruns else if link.packet < 7 then Zeroed else Done
  }

  /** How a block ends, by the sizes alone: `size` is that of the answer. */
  lemma {:induction false} BlockEndsIff(link: Link, blocks: nat, answer: Answer, size: nat)
    requires answer.Good? ==> size == 4 + 4 * blocks
    requires answer.Fault? ==> size == 1 + answer.more
    ensures var r := BlockEnds(link, blocks, answer);
      var over := !answer.Silent? && link.packet > 65 && (link.hid || size > 65);
      && (r.Done? <==> blocks <= 256 && answer.Good? && !over && size <= link.packet)
      && (r.Overruns? <==> blocks <= 256 && over)
      && (r.Exits? <==> blocks <= 256 && answer.Silent? && link.hid)
      && (r.Unfilled? <==> blocks <= 256 && answer.Silent? && !link.hid)
      && !r.Stuck? && !r.Zeroed?
  {
  }

  /** The same of a single access, whose answer has 7 bytes and whose request has 19. */
  lemma {:induction false} SingleEndsIff(link: Link, answer: Answer, size: nat)
    requires answer.Good? ==> size == 7
    requires answer.Fault? ==> size == 1 + answer.more
    ensures var r := SingleEnds(link, answer);
      var over := !answer.Silent? && link.packet > 65 && (link.hid || size > 65);
      && (r.Done? <==> answer.Good? && !over && (if link.hid then 19 else 7) <= link.packet)
      && (r.Overruns? <==> over)
      && (r.Exits? <==> link.hid && (link.packet < 19 || answer.Silent?))
      && !r.Stuck? && !r.Failed? && !r.Unfilled?
  {
  }

  /** And of a set-up, with 3 and 18 bytes. */
  lemma {:induction false} SetUpEndsIff(link: Link)
    ensures var r := SetUpEnds(link);
      && (r.Done? <==> if link.hid then 18 <= link.packet <= 65 else 3 <= link.packet)
      && (r.Overruns? <==> link.hid && link.packet > 65)
      && (r.Exits? <==> link.packet < if link.hid then 18 else 3)
  {
  }

  /** A smaller block does no worse. */
  lemma {:induction false} SmallerIsDone(link: Link, blocks: nat, fewer: nat)
    requires fewer <= blocks && BlockEnds(link, blocks, Good).Done?
    ensures BlockEnds(link, fewer, Good).Done?
  {
  }

  /** The packets that neither overrun the buffer nor are too small to be of use. */
  predicate Suits(link: Link) {
    && (if link.hid then SINGLE_SIZE <= link.packet <= RECEIVE_SIZE else 7 <= link.packet <= RECEIVE_SIZE + 1)
    && link.packet % 4 != 3
  }

  /** No block within the limit overruns the buffer, if and only if the reported packet size is below 67,
      or 66 on HID. */
  lemma {:induction false} NeverOverrunsIff(link: Link)
    ensures (forall blocks: nat | blocks <= BlocksPerTransfer(link) :: !BlockEnds(link, blocks, Good).Overruns?)
      <==> link.packet < if link.hid then 66 else 67
  {
    LimitIs(link);
    if link.hid {
      assert BlockEnds(link, 0, Good).Overruns? <==> link.packet >= 66;
    } else if link.packet >= 67 {
      assert BlockEnds(link, 16, Good).Overruns?;
    }
  }

  lemma {:induction false} SuitableDone(link: Link, blocks: nat)
    requires Suits(link) && blocks <= BlocksPerTransfer(link)
    ensures BlockEnds(link, blocks, Good).Done? && BlocksPerTransfer(link) > 0
    ensures SetUpEnds(link).Done? && SingleEnds(link, Good).Done?
  {
    LimitIs(link);
    FitsIff(link, blocks);
  }

  /** The largest block of a packet that does not suit: on HID it may be that only a single access
      fails. */
  lemma {:induction false} UnsuitableNot(link: Link, blocks: nat)
    requires !Suits(link) && SetUpEnds(link).Done? && SingleEnds(link, Good).Done?
    requires blocks == Min(MOST_ACCESSES, BlocksPerTransfer(link))
    ensures blocks > 0 && !BlockEnds(link, blocks, Good).Done?
  {
    LimitIs(link);
    FitsIff(link, blocks);
  }
}
