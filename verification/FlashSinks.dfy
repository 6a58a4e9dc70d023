/** The loader itself, driving a flash sink that may refuse any call. */
module FlashSinks {
  import opened Common
  import opened FlashLoader
  import opened NorFlash

  /** The sink's callbacks, as answers to the n-th call made to it. `reading` is what the read
      callback returns, if it succeeds. */
  datatype Sink = Sink(
    accepts: (nat, Event) -> bool,
    reading: (nat, u32, nat) -> Option<seq<byte>>,
    canRead: bool,
    inFlash: Option<(u32, u32) -> bool>)

  predicate Passes(sink: Sink, i: nat, e: Event) {
    if e.ReadBack? then sink.reading(i, e.addr, |e.data|) == Some(e.data) else sink.accepts(i, e)
  }

  predicate AllPass(sink: Sink, trace: seq<Event>, from: nat, to: nat)
    requires to <= |trace|
  {
    forall i | from <= i < to :: Passes(sink, i, trace[i])
  }

  /** The calls in `plan` were made one after the other until one failed; `ok` if none did. */
  predicate Ran(sink: Sink, before: seq<Event>, after: seq<Event>, plan: seq<Event>, ok: bool) {
    && |before| <= |after| && after <= before + plan
    && if ok then after == before + plan && AllPass(sink, after, |before|, |after|)
       else
         && |before| < |after| && AllPass(sink, after, |before|, |after| - 1)
         && !Passes(sink, |after| - 1, after[|after| - 1])
  }

  lemma {:induction false} RanThen(sink: Sink, s0: seq<Event>, s1: seq<Event>, s2: seq<Event>, a: seq<Event>,
                                   b: seq<Event>, ok: bool)
    requires Ran(sink, s0, s1, a, true) && Ran(sink, s1, s2, b, ok)
    ensures Ran(sink, s0, s2, a + b, ok)
  {
    assert s0 + (a + b) == s1 + b;
    assert forall i | |s0| <= i < |s1| :: s2[i] == s1[i];
  }

  lemma {:induction false} RanPart(sink: Sink, s0: seq<Event>, s1: seq<Event>, a: seq<Event>, b: seq<Event>)
    requires Ran(sink, s0, s1, a, false) && a <= b
    ensures Ran(sink, s0, s1, b, false)
  {
    assert s0 + b == (s0 + a) + b[|a|..];
  }

  /** A run succeeds exactly when the sink would pass the whole plan. */
  lemma {:induction false} RanIff(sink: Sink, s0: seq<Event>, s1: seq<Event>, plan: seq<Event>, ok: bool)
    requires Ran(sink, s0, s1, plan, ok)
    ensures ok <==> AllPass(sink, s0 + plan, |s0|, |s0| + |plan|)
  {
    if !ok {
      assert s1[|s1| - 1] == (s0 + plan)[|s1| - 1];
    }
  }

  lemma {:induction false} ProgramsPrefix(file: seq<byte>, segs: seq<Phdr>, k: nat)
    requires AllData(file, segs) && k <= |segs|
    ensures AllData(file, segs[..k]) && Programs(file, segs[..k]) <= Programs(file, segs)
    decreases |segs| - k
  {
    if k == |segs| {
      assert segs[..k] == segs;
    } else {
      ProgramsPrefix(file, segs, k + 1);
      assert segs[..k + 1][..k] == segs[..k];
    }
  }

  lemma {:induction false} VerifiesPrefix(file: seq<byte>, segs: seq<Phdr>, k: nat)
    requires AllData(file, segs) && k <= |segs|
    ensures AllData(file, segs[..k]) && Verifies(file, segs[..k]) <= Verifies(file, segs)
    decreases |segs| - k
  {
    if k == |segs| {
      assert segs[..k] == segs;
    } else {
      VerifiesPrefix(file, segs, k + 1);
      assert segs[..k + 1][..k] == segs[..k];
    }
  }

  /** Segments of fewer headers are a prefix of those of more. */
  lemma {:induction false} SegmentsPrefix(header: nat -> Option<Phdr>, takes: Phdr -> bool, i: nat, n: nat)
    requires i <= n && Segments(header, takes, n).Some?
    ensures Segments(header, takes, i).Some?
    ensures Segments(header, takes, i).value <= Segments(header, takes, n).value
    decreases n
  {
    if i < n { SegmentsPrefix(header, takes, i, n - 1); }
  }

  // ----- one range, in pieces: written in pass 2, read back in pass 3 -----------------------------------

  function PieceSize(back: bool): nat { if back then VERIFY_CHUNK else CHUNK }

  function Piece(back: bool, addr: u32, data: seq<byte>): Event {
    if back then ReadBack(addr, data) else Write(addr, data)
  }

  function Pieces(back: bool, addr: u32, data: seq<byte>): seq<Event> {
    if back then ReadBacks(addr, data) else Writes(addr, data)
  }

  /** The next piece of a range of which `count` bytes are done. */
  lemma {:induction false} NextPiece(back: bool, data: seq<byte>, addr: u32, count: nat, piece: seq<byte>)
    requires count < |data| && piece == data[count..count + Min(|data| - count, PieceSize(back))]
    ensures Pieces(back, addr, data[count..])
      == [Piece(back, addr, piece)] + Pieces(back, Wrap(addr + |piece|), data[count + |piece|..])
  {
    assert data[count..][..|piece|] == piece;
    assert data[count..][|piece|..] == data[count + |piece|..];
  }

  /** From call `from` on, nothing is erased or completed, and only inside the range is written. */
  predicate Confined(trace: seq<Event>, from: nat, start: u32, len: u32) {
    forall i | from <= i < |trace| ::
      && (trace[i].Write? || trace[i].ReadBack?)
      && start <= trace[i].addr && trace[i].addr + |trace[i].data| <= start + len
  }

  datatype LoadResult = LoadResult(segments: nat, bytes: u32, entry: u32)

  /** One chunk made, the rest to come. */
  lemma {:induction false} RanChunk(sink: Sink, s0: seq<Event>, s1: seq<Event>, s2: seq<Event>, all: seq<Event>,
                                    e: Event, rest: seq<Event>, ok: bool)
    requires |s0| <= |s1| && AllPass(sink, s1, |s0|, |s1|)
    requires s0 + all == s1 + ([e] + rest)
    requires s2 == s1 + [e] && ok == Passes(sink, |s1|, e)
    ensures ok ==> |s0| <= |s2| && AllPass(sink, s2, |s0|, |s2|) && s0 + all == s2 + rest
    ensures !ok ==> Ran(sink, s0, s2, all, false)
  {
    assert s1 + ([e] + rest) == s2 + rest;
  }

  /** How a range ends: on success the range was in the file and all of it was done; where
      it is in the file, the calls made are those of `Pieces` up to the first refused. */
  predicate Covered(back: bool, sink: Sink, s0: seq<Event>, s: seq<Event>, file: seq<byte>, off: u32, start: u32,
                    len: u32, ok: bool) {
    && s0 <= s
    && (ok ==> ReadAt(file, off, len).Some? || len == 0)
    && (ReadAt(file, off, len).Some? ==> Ran(sink, s0, s, Pieces(back, start, ReadAt(file, off, len).value), ok))
    && (start + len <= U32 ==> Confined(s, |s0|, start, len))
  }

  /** The state between two pieces: `count` bytes are done. */
  predicate Midway(back: bool, sink: Sink, s0: seq<Event>, s: seq<Event>, file: seq<byte>, off: u32, start: u32,
                   len: u32, count: nat, addr: u32) {
    && count <= len && addr == Wrap(start + count) && off < 0x8000_0000
    && (count > 0 ==> off + count <= |file|)
    && s0 <= s && AllPass(sink, s, |s0|, |s|)
    && (off + len <= |file| ==>
          s0 + Pieces(back, start, file[off..off + len]) == s + Pieces(back, addr, file[off + count..off + len]))
    && (start + len <= U32 ==> Confined(s, |s0|, start, len))
  }

  lemma {:induction false} MidwayStarts(back: bool, sink: Sink, s: seq<Event>, file: seq<byte>, off: u32, start: u32,
                                        len: u32)
    requires off < 0x8000_0000
    ensures Midway(back, sink, s, s, file, off, start, len, 0, start)
  {
  }

  lemma {:induction false} MidwayStep(back: bool, sink: Sink, s0: seq<Event>, s: seq<Event>, s1: seq<Event>,
                                      file: seq<byte>, off: u32, start: u32, len: u32, count: nat, addr: u32,
                                      piece: seq<byte>, ok: bool)
    requires Midway(back, sink, s0, s, file, off, start, len, count, addr)
    requires count < len && ReadOn(file, off + count, Min(len - count, PieceSize(back))) == Some(piece)
    requires s1 == s + [Piece(back, addr, piece)] && ok == Passes(sink, |s|, Piece(back, addr, piece))
    ensures ok ==> Midway(back, sink, s0, s1, file, off, start, len, count + |piece|, Wrap(addr + |piece|))
    ensures !ok ==> Covered(back, sink, s0, s1, file, off, start, len, ok)
  {
    ConfinedStep(back, s0, s, s1, start, len, count, addr, piece);
    WrapAdd(start, count, |piece|);
    if off + len <= |file| {
      RanStep(back, sink, s0, s, s1, file, off, start, len, count, addr, piece, ok, file[off..off + len],
              file[off + count..off + len], file[off + count + |piece|..off + len]);
    }
  }

  lemma {:induction false} WrapAdd(start: u32, count: nat, n: nat)
    requires count + n < U32
    ensures Wrap(Wrap(start + count) + n) == Wrap(start + (count + n))
  {
  }

  lemma {:induction false} ConfinedStep(back: bool, s0: seq<Event>, s: seq<Event>, s1: seq<Event>, start: u32,
                                        len: u32, count: nat, addr: u32, piece: seq<byte>)
    requires s0 <= s && s1 == s + [Piece(back, addr, piece)]
    requires count < len && count + |piece| <= len && addr == Wrap(start + count)
    requires start + len <= U32 ==> Confined(s, |s0|, start, len)
    ensures s0 <= s1 && (start + len <= U32 ==> Confined(s1, |s0|, start, len))
  {
  }

  lemma {:induction false} RanStep(back: bool, sink: Sink, s0: seq<Event>, s: seq<Event>, s1: seq<Event>,
                                   file: seq<byte>, off: u32, start: u32, len: u32, count: nat, addr: u32,
                                   piece: seq<byte>, ok: bool, data: seq<byte>, left: seq<byte>, rest: seq<byte>)
    requires off + len <= |file| && count < len
    requires ReadOn(file, off + count, Min(len - count, PieceSize(back))) == Some(piece)
    requires data == file[off..off + len] && left == file[off + count..off + len]
    requires rest == file[off + count + |piece|..off + len]
    requires s0 <= s && AllPass(sink, s, |s0|, |s|) && s0 + Pieces(back, start, data) == s + Pieces(back, addr, left)
    requires s1 == s + [Piece(back, addr, piece)] && ok == Passes(sink, |s|, Piece(back, addr, piece))
    ensures ok ==> && AllPass(sink, s1, |s0|, |s1|)
                   && s0 + Pieces(back, start, data) == s1 + Pieces(back, Wrap(addr + |piece|), rest)
    ensures !ok ==> Ran(sink, s0, s1, Pieces(back, start, data), false)
  {
    PieceMatches(file, off, len, count, Min(len - count, PieceSize(back)), piece, data, left, rest);
    RanData(back, sink, s0, s, s1, Pieces(back, start, data), data, count, addr, piece, ok);
  }

  lemma {:induction false} RanData(back: bool, sink: Sink, s0: seq<Event>, s: seq<Event>, s1: seq<Event>,
                                   all: seq<Event>, data: seq<byte>, count: nat, addr: u32, piece: seq<byte>, ok: bool)
    requires count < |data| && piece == data[count..count + Min(|data| - count, PieceSize(back))]
    requires s0 <= s && AllPass(sink, s, |s0|, |s|) && s0 + all == s + Pieces(back, addr, data[count..])
    requires s1 == s + [Piece(back, addr, piece)] && ok == Passes(sink, |s|, Piece(back, addr, piece))
    requires |data| < U32
    ensures ok ==> && AllPass(sink, s1, |s0|, |s1|)
                   && s0 + all == s1 + Pieces(back, Wrap(addr + |piece|), data[count + |piece|..])
    ensures !ok ==> Ran(sink, s0, s1, all, false)
  {
    NextPiece(back, data, addr, count, piece);
    RanChunk(sink, s0, s, s1, all, Piece(back, addr, piece),
             Pieces(back, Wrap(addr + |piece|), data[count + |piece|..]), ok);
  }

  lemma {:induction false} PieceMatches(file: seq<byte>, off: nat, len: nat, count: nat, n: nat, piece: seq<byte>,
                                        data: seq<byte>, left: seq<byte>, rest: seq<byte>)
    requires off + len <= |file| && count + n <= len && ReadOn(file, off + count, n) == Some(piece)
    requires data == file[off..off + len] && left == file[off + count..off + len]
    requires rest == file[off + count + |piece|..off + len]
    ensures |data| == len && |piece| == n && piece == data[count..count + n]
    ensures left == data[count..] && rest == data[count + n..]
  {
    PieceOf(file, off, len, count, n);
  }

  lemma {:induction false} PieceOf(file: seq<byte>, off: nat, len: nat, count: nat, n: nat)
    requires off + len <= |file| && count + n <= len
    ensures var data := file[off..off + len];
            && data[count..count + n] == file[off + count..off + count + n]
            && data[count..] == file[off + count..off + len]
            && data[count + n..] == file[off + count + n..off + len]
  {
    Suffix(file, off, len, count);
    Suffix(file, off, len, count + n);
    var data := file[off..off + len];
    var a, b := data[count..count + n], file[off + count..off + count + n];
    assert forall i | 0 <= i < n :: a[i] == b[i];
  }

  lemma {:induction false} Suffix(file: seq<byte>, off: nat, len: nat, count: nat)
    requires off + len <= |file| && count <= len
    ensures file[off..off + len][count..] == file[off + count..off + len]
  {
    var a, b := file[off..off + len][count..], file[off + count..off + len];
    assert forall i | 0 <= i < |b| :: a[i] == b[i];
  }

  lemma {:induction false} MidwayDone(back: bool, sink: Sink, s0: seq<Event>, s: seq<Event>, file: seq<byte>,
                                      off: u32, start: u32, len: u32, addr: u32)
    requires Midway(back, sink, s0, s, file, off, start, len, len, addr)
    ensures Covered(back, sink, s0, s, file, off, start, len, true)
  {
    if off + len <= |file| {
      assert Pieces(back, addr, file[off + len..off + len]) == [];
      assert s0 + Pieces(back, start, file[off..off + len]) == s + [];
      assert Ran(sink, s0, s, Pieces(back, start, file[off..off + len]), true);
    }
  }

  // ----- one pass over the segments ---------------------------------------------------------------------

  function PassPlan(back: bool, file: seq<byte>, segs: seq<Phdr>): seq<Event>
    requires AllData(file, segs)
  {
    if back then Verifies(file, segs) else Programs(file, segs)
  }

  predicate AllAllowed(trace: seq<Event>, from: nat, segs: seq<Phdr>) {
    forall i | from <= i < |trace| :: Allowed(trace[i], segs)
  }

  /** How a pass over `segs` ends. */
  predicate Passed(back: bool, sink: Sink, s0: seq<Event>, s: seq<Event>, file: seq<byte>, segs: seq<Phdr>, ok: bool) {
    && s0 <= s
    && (ok ==> AllData(file, segs))
    && (AllData(file, segs) ==> Ran(sink, s0, s, PassPlan(back, file, segs), ok))
    && (NoWrap(segs) ==> Touched(s, |s0|, segs))
  }

  /** Only the segments are written or read back. */
  predicate Touched(trace: seq<Event>, from: nat, segs: seq<Phdr>) {
    forall i | from <= i < |trace| :: Touches(trace[i], segs)
  }

  predicate Touches(e: Event, segs: seq<Phdr>) {
    && (e.Write? || e.ReadBack?)
    && exists k | 0 <= k < |segs| :: Part(e.addr, |e.data|, segs[k])
  }

  lemma {:induction false} TouchedMore(s: seq<Event>, from: nat, segs: seq<Phdr>, more: seq<Phdr>)
    requires Touched(s, from, segs) && segs <= more
    ensures Touched(s, from, more)
  {
    forall i | from <= i < |s| ensures Touches(s[i], more) {
      var k :| 0 <= k < |segs| && Part(s[i].addr, |s[i].data|, segs[k]);
      assert Part(s[i].addr, |s[i].data|, more[k]);
    }
  }

  lemma {:induction false} TouchedNext(s: seq<Event>, s1: seq<Event>, from: nat, segs: seq<Phdr>, ph: Phdr)
    requires Touched(s, from, segs) && s <= s1 && from <= |s| && Confined(s1, |s|, ph.paddr, ph.filesz)
    ensures Touched(s1, from, segs + [ph])
  {
    var all := segs + [ph];
    TouchedMore(s, from, segs, all);
    forall i | from <= i < |s1| ensures Touches(s1[i], all) {
      if i < |s| {
        assert s1[i] == s[i];
      } else {
        assert Part(s1[i].addr, |s1[i].data|, all[|segs|]);
      }
    }
  }

  lemma {:induction false} PassStarts(back: bool, sink: Sink, s: seq<Event>, file: seq<byte>)
    ensures Passed(back, sink, s, s, file, [], true)
  {
    assert PassPlan(back, file, []) == [];
    assert s + [] == s;
  }

  lemma {:induction false} PassStepRan(back: bool, sink: Sink, s0: seq<Event>, s: seq<Event>, s1: seq<Event>,
                                       file: seq<byte>, segs: seq<Phdr>, ph: Phdr, ok: bool)
    requires Passed(back, sink, s0, s, file, segs, true) && ph.filesz > 0
    requires Covered(back, sink, s, s1, file, ph.offset, ph.paddr, ph.filesz, ok)
    ensures ok ==> AllData(file, segs + [ph])
    ensures AllData(file, segs + [ph]) ==> Ran(sink, s0, s1, PassPlan(back, file, segs + [ph]), ok)
  {
    var all := segs + [ph];
    assert all[..|segs|] == segs && all[|segs|] == ph;
    if AllData(file, all) {
      assert Data(file, all[|segs|]).Some?;
      RanThen(sink, s0, s, s1, PassPlan(back, file, segs), Pieces(back, ph.paddr, Data(file, ph).value), ok);
    }
  }

  lemma {:induction false} PassStep(back: bool, sink: Sink, s0: seq<Event>, s: seq<Event>, s1: seq<Event>,
                                    file: seq<byte>, segs: seq<Phdr>, ph: Phdr, ok: bool)
    requires Passed(back, sink, s0, s, file, segs, true) && ph.filesz > 0
    requires Covered(back, sink, s, s1, file, ph.offset, ph.paddr, ph.filesz, ok)
    ensures Passed(back, sink, s0, s1, file, segs + [ph], ok)
  {
    PassStepRan(back, sink, s0, s, s1, file, segs, ph, ok);
    var all := segs + [ph];
    if NoWrap(all) {
      assert all[|segs|] == ph;
      assert NoWrap(segs) by { assert forall k | 0 <= k < |segs| :: segs[k] == all[k]; }
      TouchedNext(s, s1, |s0|, segs, ph);
    }
  }

  /** A pass that fails at a segment fails as a whole. */
  lemma {:induction false} PassFails(back: bool, sink: Sink, s0: seq<Event>, s: seq<Event>, file: seq<byte>,
                                     segs: seq<Phdr>, all: seq<Phdr>)
    requires Passed(back, sink, s0, s, file, segs, false) && segs <= all
    ensures Passed(back, sink, s0, s, file, all, false)
  {
    assert all[..|segs|] == segs;
    if AllData(file, all) {
      ProgramsPrefix(file, all, |segs|);
      VerifiesPrefix(file, all, |segs|);
      RanPart(sink, s0, s, PassPlan(back, file, segs), PassPlan(back, file, all));
    }
    if NoWrap(all) {
      assert NoWrap(segs) by { assert forall k | 0 <= k < |segs| :: segs[k] == all[k]; }
      TouchedMore(s, |s0|, segs, all);
    }
  }

  lemma {:induction false} TouchedAllowed(trace: seq<Event>, from: nat, segs: seq<Phdr>)
    requires Touched(trace, from, segs)
    ensures AllAllowed(trace, from, segs)
  {
  }

  /** The byte count, in 32 bits, and the number of segments. */
  predicate Tally(segs: seq<Phdr>, total: u32, done: nat) { total == Bytes(segs) && done == |segs| }

  // ----- a whole load -------------------------------------------------------------------------------------

  /** How a load of `segs` ends: on success every segment was in the file; where they all are, the
      calls made are those of `Plan` up to the first refused; whatever happens, nothing but the span
      is erased and nothing but the segments is written. */
  predicate Loaded(sink: Sink, s0: seq<Event>, s: seq<Event>, file: seq<byte>, segs: seq<Phdr>, ok: bool) {
    && s0 <= s
    && (ok ==> AllData(file, segs))
    && (AllData(file, segs) ==> Ran(sink, s0, s, Plan(file, segs, sink.canRead), ok))
    && (NoWrap(segs) ==> AllAllowed(s, |s0|, segs))
  }

  function EraseAll(segs: seq<Phdr>): Event { Erase(Lo(segs), Span(segs)) }

  lemma {:induction false} EraseFailed(sink: Sink, s0: seq<Event>, s1: seq<Event>, file: seq<byte>, segs: seq<Phdr>)
    requires Ran(sink, s0, s1, [EraseAll(segs)], false)
    ensures Loaded(sink, s0, s1, file, segs, false)
  {
    assert s1 == s0 + [EraseAll(segs)];
    if AllData(file, segs) { RanPart(sink, s0, s1, [EraseAll(segs)], Plan(file, segs, sink.canRead)); }
  }

  lemma {:induction false} ProgramFailed(sink: Sink, s0: seq<Event>, s1: seq<Event>, s2: seq<Event>, file: seq<byte>,
                                         segs: seq<Phdr>)
    requires Ran(sink, s0, s1, [EraseAll(segs)], true) && Passed(false, sink, s1, s2, file, segs, false)
    ensures Loaded(sink, s0, s2, file, segs, false)
  {
    if AllData(file, segs) {
      RanThen(sink, s0, s1, s2, [EraseAll(segs)], Programs(file, segs), false);
      RanPart(sink, s0, s2, [EraseAll(segs)] + Programs(file, segs), Plan(file, segs, sink.canRead));
    }
    if NoWrap(segs) { AllowedThen(s0, s1, s2, segs); }
  }

  lemma {:induction false} AllowedThen(s0: seq<Event>, s1: seq<Event>, s2: seq<Event>, segs: seq<Phdr>)
    requires s1 == s0 + [EraseAll(segs)] && s1 <= s2 && Touched(s2, |s1|, segs)
    ensures AllAllowed(s2, |s0|, segs)
  {
    TouchedAllowed(s2, |s1|, segs);
    assert s2[|s0|] == s1[|s0|];
  }

  /** Up to and including the completion call. */
  lemma {:induction false} Completed(sink: Sink, s0: seq<Event>, s1: seq<Event>, s2: seq<Event>, s3: seq<Event>,
                                     file: seq<byte>, segs: seq<Phdr>, ok: bool)
    requires Ran(sink, s0, s1, [EraseAll(segs)], true) && Passed(false, sink, s1, s2, file, segs, true)
    requires Ran(sink, s2, s3, [Complete], ok)
    ensures s0 <= s3 && AllData(file, segs)
    ensures Ran(sink, s0, s3, [EraseAll(segs)] + Programs(file, segs) + [Complete], ok)
    ensures NoWrap(segs) ==> AllAllowed(s3, |s0|, segs)
    ensures !ok ==> Loaded(sink, s0, s3, file, segs, false)
  {
    RanThen(sink, s0, s1, s2, [EraseAll(segs)], Programs(file, segs), true);
    var upto := [EraseAll(segs)] + Programs(file, segs);
    RanThen(sink, s0, s2, s3, upto, [Complete], ok);
    if NoWrap(segs) {
      AllowedThen(s0, s1, s2, segs);
      assert s3 == s2 + [Complete];
    }
    if !ok { RanPart(sink, s0, s3, upto + [Complete], Plan(file, segs, sink.canRead)); }
  }

  lemma {:induction false} LoadEnds(sink: Sink, s0: seq<Event>, s3: seq<Event>, s4: seq<Event>, file: seq<byte>,
                                    segs: seq<Phdr>, ok: bool)
    requires s0 <= s3 && AllData(file, segs)
    requires Ran(sink, s0, s3, [EraseAll(segs)] + Programs(file, segs) + [Complete], true)
    requires NoWrap(segs) ==> AllAllowed(s3, |s0|, segs)
    requires if sink.canRead then Passed(true, sink, s3, s4, file, segs, ok) else s4 == s3 && ok
    ensures Loaded(sink, s0, s4, file, segs, ok)
  {
    var upto := [EraseAll(segs)] + Programs(file, segs) + [Complete];
    if sink.canRead {
      RanThen(sink, s0, s3, s4, upto, Verifies(file, segs), ok);
      if NoWrap(segs) {
        TouchedAllowed(s4, |s3|, segs);
        assert forall i | |s0| <= i < |s3| :: s4[i] == s3[i];
      }
    } else {
      assert Plan(file, segs, false) == upto;
    }
  }

  class Loader {
    const sink: Sink
    /** Every call made to the sink, the last one possibly refused. */
    var trace: seq<Event>

    constructor (sink: Sink)
      ensures this.sink == sink && trace == []
    {
      this.sink := sink;
      trace := [];
    }

    method Call(e: Event) returns (ok: bool)
      modifies this
      ensures trace == old(trace) + [e] && ok == Passes(sink, |old(trace)|, e)
      ensures Ran(sink, old(trace), trace, [e], ok)
    {
      ok := Passes(sink, |trace|, e);
      trace := trace + [e];
    }

    /** One piece of a range: from the file, and written or compared. */
    method Move(back: bool, file: seq<byte>, pos: nat, addr: u32, want: nat, ghost s0: seq<Event>, ghost off: u32,
                ghost start: u32, ghost len: u32, ghost count: nat)
      returns (ok: bool)
      requires Midway(back, sink, s0, trace, file, off, start, len, count, addr)
      requires count < len && pos == off + count && want == Min(len - count, PieceSize(back))
      modifies this
      ensures if ok then Midway(back, sink, s0, trace, file, off, start, len, count + want, Wrap(addr + want))
              else Covered(back, sink, s0, trace, file, off, start, len, false)
    {
      var piece := ReadOn(file, pos, want);
      if piece.None? { return false; }
      ghost var before := trace;
      ok := Call(Piece(back, addr, piece.value));
      MidwayStep(back, sink, s0, before, trace, file, off, start, len, count, addr, piece.value, ok);
    }

    /** The chunk loop of pass 2: every piece is written, in order, to its address. */
    method ProgramRange(file: seq<byte>, off: u32, start: u32, len: u32) returns (ok: bool, count: u32)
      modifies this
      ensures ok ==> count == len
      ensures Covered(false, sink, old(trace), trace, file, off, start, len, ok)
    {
      count := 0;
      ok := off < 0x8000_0000;
      if !ok { return; }
      var addr, left := start, len;
      ghost var s0 := trace;
      MidwayStarts(false, sink, s0, file, off, start, len);
      while left > 0
        invariant count + left == len && ok
        invariant Midway(false, sink, s0, trace, file, off, start, len, count, addr)
      {
        var want := Min(left, CHUNK);
        ok := Move(false, file, off + count, addr, want, s0, off, start, len, count);
        if !ok { return; }
        addr, left, count := Wrap(addr + want), left - want, count + want;
      }
      MidwayDone(false, sink, s0, trace, file, off, start, len, addr);
    }

    /** The range is read back and compared with the file, piece by piece. */
    method VerifyRange(file: seq<byte>, off: u32, start: u32, length: u32) returns (ok: bool)
      modifies this
      ensures Covered(true, sink, old(trace), trace, file, off, start, length, ok)
    {
      ok := off < 0x8000_0000;
      if !ok { return; }
      var addr, len, pos := start, length, off as nat;
      ghost var s0 := trace;
      MidwayStarts(true, sink, s0, file, off, start, length);
      while len > 0
        invariant ok && len <= length && pos == off + length - len
        invariant Midway(true, sink, s0, trace, file, off, start, length, length - len, addr)
      {
        var n := Min(len, VERIFY_CHUNK);
        ok := Move(true, file, pos, addr, n, s0, off, start, length, length - len);
        if !ok { return; }
        addr, len, pos := Wrap(addr + n), len - n, pos + n;
      }
      MidwayDone(true, sink, s0, trace, file, off, start, length, addr);
    }

    /** Pass 1. */
    method Survey(header: nat -> Option<Phdr>, takes: Phdr -> bool, phnum: nat)
      returns (ok: bool, lo: u32, hi: u32, count: nat)
      ensures ok == Segments(header, takes, phnum).Some?
      ensures ok ==> Spans(Segments(header, takes, phnum).value, lo, hi, count)
    {
      lo, hi, count, ok := 0xffff_ffff, 0, 0, true;
      ghost var segs: seq<Phdr> := [];
      var i := 0;
      while i < phnum
        invariant 0 <= i <= phnum && ok
        invariant Segments(header, takes, i) == Some(segs)
        invariant Spans(segs, lo, hi, count)
      {
        var ph := header(i);
        if ph.None? {
          ok := false;
          NoSegments(header, takes, i, phnum);
          return;
        }
        SegmentsStep(header, takes, i, segs);
        if takes(ph.value) {
          ghost var lo0, hi0 := lo, hi;
          var end := Wrap(ph.value.paddr + ph.value.filesz);
          if ph.value.paddr < lo { lo := ph.value.paddr; }
          if end > hi { hi := end; }
          SpansGrow(segs, ph.value, lo0, hi0, lo, hi, count);
          count := count + 1;
          segs := segs + [ph.value];
        }
        i := i + 1;
      }
    }

    /** One segment of pass 2, after those of `segs`. */
    method ProgramNext(file: seq<byte>, ph: Phdr, total0: u32, done0: nat, ghost s0: seq<Event>,
                       ghost segs: seq<Phdr>, ghost all: seq<Phdr>)
      returns (ok: bool, total: u32, done: nat)
      requires Passed(false, sink, s0, trace, file, segs, true) && ph.filesz > 0 && segs + [ph] <= all
      requires Tally(segs, total0, done0)
      modifies this
      ensures Passed(false, sink, s0, trace, file, if ok then segs + [ph] else all, ok)
      ensures ok ==> Tally(segs + [ph], total, done)
    {
      ghost var before := trace;
      var count;
      ok, count := ProgramRange(file, ph.offset, ph.paddr, ph.filesz);
      PassStep(false, sink, s0, before, trace, file, segs, ph, ok);
      if !ok { PassFails(false, sink, s0, trace, file, segs + [ph], all); }
      BytesGrow(segs, ph);
      total, done := Wrap(total0 + count), done0 + 1;
    }

    /** Pass 2. */
    method ProgramAll(file: seq<byte>, header: nat -> Option<Phdr>, takes: Phdr -> bool, phnum: nat)
      returns (ok: bool, total: u32, done: nat)
      requires Segments(header, takes, phnum).Some? && forall ph | takes(ph) :: ph.filesz > 0
      modifies this
      ensures Passed(false, sink, old(trace), trace, file, Segments(header, takes, phnum).value, ok)
      ensures ok ==> Tally(Segments(header, takes, phnum).value, total, done)
    {
      ghost var all, s0 := Segments(header, takes, phnum).value, trace;
      ghost var segs: seq<Phdr> := [];
      total, done, ok := 0, 0, true;
      var i := 0;
      PassStarts(false, sink, trace, file);
      while i < phnum
        invariant 0 <= i <= phnum && ok
        invariant Segments(header, takes, i) == Some(segs)
        invariant Tally(segs, total, done)
        invariant Passed(false, sink, s0, trace, file, segs, true)
      {
        SegmentsRead(header, takes, i, phnum, segs);
        var ph := header(i).value;
        if takes(ph) {
          ok, total, done := ProgramNext(file, ph, total, done, s0, segs, all);
          if !ok { return; }
          segs := segs + [ph];
        }
        i := i + 1;
      }
    }

    /** One segment of pass 3, after those of `segs`. */
    method VerifyNext(file: seq<byte>, ph: Phdr, ghost s0: seq<Event>, ghost segs: seq<Phdr>, ghost all: seq<Phdr>)
      returns (ok: bool)
      requires Passed(true, sink, s0, trace, file, segs, true) && ph.filesz > 0 && segs + [ph] <= all
      modifies this
      ensures Passed(true, sink, s0, trace, file, if ok then segs + [ph] else all, ok)
    {
      ghost var before := trace;
      ok := VerifyRange(file, ph.offset, ph.paddr, ph.filesz);
      PassStep(true, sink, s0, before, trace, file, segs, ph, ok);
      if !ok { PassFails(true, sink, s0, trace, file, segs + [ph], all); }
    }

    /** Pass 3. */
    method VerifyAll(file: seq<byte>, header: nat -> Option<Phdr>, takes: Phdr -> bool, phnum: nat) returns (ok: bool)
      requires Segments(header, takes, phnum).Some? && forall ph | takes(ph) :: ph.filesz > 0
      modifies this
      ensures Passed(true, sink, old(trace), trace, file, Segments(header, takes, phnum).value, ok)
    {
      ghost var all, s0 := Segments(header, takes, phnum).value, trace;
      ghost var segs: seq<Phdr> := [];
      ok := true;
      var i := 0;
      PassStarts(true, sink, trace, file);
      while i < phnum
        invariant 0 <= i <= phnum && ok
        invariant Segments(header, takes, i) == Some(segs)
        invariant Passed(true, sink, s0, trace, file, segs, true)
      {
        SegmentsRead(header, takes, i, phnum, segs);
        var ph := header(i).value;
        if takes(ph) {
          ok := VerifyNext(file, ph, s0, segs, all);
          if !ok { return; }
          segs := segs + [ph];
        }
        i := i + 1;
      }
    }

    /** Erase once, program, complete, and verify if the sink can be read. */
    method Perform(file: seq<byte>, header: nat -> Option<Phdr>, takes: Phdr -> bool, phnum: nat, lo: u32, hi: u32)
      returns (ok: bool, total: u32, done: nat)
      requires Segments(header, takes, phnum).Some? && forall ph | takes(ph) :: ph.filesz > 0
      requires var segs := Segments(header, takes, phnum).value; lo == Lo(segs) && hi == Hi(segs)
      modifies this
      ensures Loaded(sink, old(trace), trace, file, Segments(header, takes, phnum).value, ok)
      ensures ok ==> Tally(Segments(header, takes, phnum).value, total, done)
    {
      total, done := 0, 0;
      ghost var segs := Segments(header, takes, phnum).value;
      ok := Call(Erase(lo, Wrap(hi - lo)));
      ghost var s1 := trace;
      if !ok { EraseFailed(sink, old(trace), s1, file, segs); return; }
      ok, total, done := ProgramAll(file, header, takes, phnum);
      ghost var s2 := trace;
      if !ok { ProgramFailed(sink, old(trace), s1, s2, file, segs); return; }
      ok := Call(Complete);
      ghost var s3 := trace;
      Completed(sink, old(trace), s1, s2, s3, file, segs, ok);
      if !ok { return; }
      if sink.canRead { ok := VerifyAll(file, header, takes, phnum); }
      LoadEnds(sink, old(trace), s3, trace, file, segs, ok);
    }

    /** The whole load. Nothing is asked of the sink unless the image is sound. */
    method LoadElf(file: seq<byte>) returns (r: Option<LoadResult>)
      modifies this
      ensures Image(file, sink.inFlash).None? ==> r.None? && trace == old(trace)
      ensures Image(file, sink.inFlash).Some? ==>
                Loaded(sink, old(trace), trace, file, Image(file, sink.inFlash).value, r.Some?)
      ensures r.Some? ==> var segs := Image(file, sink.inFlash).value;
                r.value == LoadResult(|segs|, Bytes(segs), ParseEhdr(file).value.entry)
    {
      r := None;
      var eh := ParseEhdr(file);
      if eh.None? { return; }
      var header, takes, phnum := Headers(file, eh.value), Taken(sink.inFlash), eh.value.phnum;
      var ok, lo, hi, count := Survey(header, takes, phnum);
      if !ok || count == 0 { return; }
      var total, done;
      ok, total, done := Perform(file, header, takes, phnum, lo, hi);
      if ok { r := Some(LoadResult(done, total, eh.value.entry)); }
    }

    /** A raw image is one segment at `base`; it is never empty and, being measured with a signed
        32-bit offset, is under 2 GiB. */
    method LoadBin(file: seq<byte>, base: u32) returns (r: Option<LoadResult>)
      modifies this
      ensures !BinTaken(file, base, sink.inFlash) ==> r.None? && trace == old(trace)
      ensures BinTaken(file, base, sink.inFlash) ==> Loaded(sink, old(trace), trace, file, [Raw(file, base)], r.Some?)
      ensures r.Some? ==> r.value == LoadResult(1, |file|, base)
    {
      r := None;
      if |file| == 0 || |file| >= 0x8000_0000 { return; }
      var size: u32 := |file|;
      if sink.inFlash.Some? && !sink.inFlash.value(base, size) { return; }
      ghost var ph := Raw(file, base);
      OneSegment(file, base);
      var ok := Call(Erase(base, size));
      ghost var s1 := trace;
      if !ok { EraseFailed(sink, old(trace), s1, file, [ph]); return; }
      var total;
      PassStarts(false, sink, trace, file);
      ok, total := ProgramRange(file, 0, base, size);
      ghost var s2 := trace;
      PassStep(false, sink, s1, s1, s2, file, [], ph, ok);
      assert [] + [ph] == [ph];
      if !ok { ProgramFailed(sink, old(trace), s1, s2, file, [ph]); return; }
      ok := Call(Complete);
      ghost var s3 := trace;
      Completed(sink, old(trace), s1, s2, s3, file, [ph], ok);
      if !ok { return; }
      if sink.canRead {
        PassStarts(true, sink, trace, file);
        ok := VerifyRange(file, 0, base, size);
        PassStep(true, sink, s3, s3, trace, file, [], ph, ok);
      }
      LoadEnds(sink, old(trace), s3, trace, file, [ph], ok);
      if ok { r := Some(LoadResult(1, total, base)); }
    }
  }

  lemma {:induction false} SegmentsRead(header: nat -> Option<Phdr>, takes: Phdr -> bool, i: nat, n: nat,
                                        segs: seq<Phdr>)
    requires i < n && Segments(header, takes, n).Some? && Segments(header, takes, i) == Some(segs)
    ensures header(i).Some?
    ensures var more := if takes(header(i).value) then segs + [header(i).value] else segs;
            Segments(header, takes, i + 1) == Some(more) && more <= Segments(header, takes, n).value
  {
    SegmentsPrefix(header, takes, i + 1, n);
  }

  lemma {:induction false} SpanGrows(segs: seq<Phdr>, ph: Phdr)
    ensures Lo(segs + [ph]) == if ph.paddr < Lo(segs) then ph.paddr else Lo(segs)
    ensures Hi(segs + [ph]) == var end := Wrap(ph.paddr + ph.filesz); if end > Hi(segs) then end else Hi(segs)
  {
    assert (segs + [ph])[..|segs|] == segs;
  }

  predicate Spans(segs: seq<Phdr>, lo: u32, hi: u32, count: nat) {
    lo == Lo(segs) && hi == Hi(segs) && count == |segs|
  }

  lemma {:induction false} SpansGrow(segs: seq<Phdr>, ph: Phdr, lo0: u32, hi0: u32, lo: u32, hi: u32, count: nat)
    requires Spans(segs, lo0, hi0, count)
    requires lo == if ph.paddr < lo0 then ph.paddr else lo0
    requires hi == var end := Wrap(ph.paddr + ph.filesz); if end > hi0 then end else hi0
    ensures Spans(segs + [ph], lo, hi, count + 1)
  {
    SpanGrows(segs, ph);
  }

  lemma {:induction false} BytesGrow(segs: seq<Phdr>, ph: Phdr)
    ensures Bytes(segs + [ph]) == Wrap(Bytes(segs) + ph.filesz)
  {
    assert (segs + [ph])[..|segs|] == segs;
  }

  predicate BinTaken(file: seq<byte>, base: u32, inFlash: Option<(u32, u32) -> bool>) {
    0 < |file| < 0x8000_0000 && (inFlash.Some? ==> inFlash.value(base, |file|))
  }

  function Raw(file: seq<byte>, base: u32): Phdr
    requires |file| < 0x8000_0000
  {
    Phdr(1, 0, base, |file|)
  }

  lemma {:induction false} OneSegment(file: seq<byte>, base: u32)
    requires 0 < |file| < 0x8000_0000
    ensures EraseAll([Raw(file, base)]) == Erase(base, |file|)
  {
    OneSpan(Raw(file, base));
  }

  lemma {:induction false} OneSpan(ph: Phdr)
    ensures Lo([ph]) == ph.paddr && Hi([ph]) == Wrap(ph.paddr + ph.filesz) && Span([ph]) == ph.filesz
  {
    OneLoHi([ph], ph);
    WrapBack(ph.paddr, ph.filesz);
  }

  lemma {:induction false} OneLoHi(segs: seq<Phdr>, ph: Phdr)
    requires segs == [ph]
    ensures Lo(segs) == ph.paddr && Hi(segs) == Wrap(ph.paddr + ph.filesz)
  {
    var none := segs[..0];
    assert segs == none + [ph];
    SpanGrows(none, ph);
    assert Lo(none) == 0xffff_ffff && Hi(none) == 0;
  }

  lemma {:induction false} WrapBack(a: u32, b: u32)
    ensures Wrap(Wrap(a + b) - a) == b
  {
  }
}
