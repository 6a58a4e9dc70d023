/** The commands queued for one shift of `n` bits, and what the device makes of them. */
module MpsseShift {
  import opened Common
  import opened BitStreams
  import opened Mpsse

  /** Whole bytes before the residual bits; with a final TMS the last bit is held back. */
  function WholeBytes(n: nat, final: bool): nat
    requires n > 0
  {
    (n - if final then 1 else 0) / 8
  }

  /** `bits` in the source: the residual bits, with the one held back. */
  function Residual(n: nat, final: bool): nat {
    if n % 8 == 0 && final then 8 else n % 8
  }

  /** The bits of the bitwise command. */
  function BitCount(n: nat, final: bool): (k: nat)
    requires n > 0
    ensures 8 * WholeBytes(n, final) + k + (if final then 1 else 0) == n && k < 8
  {
    Residual(n, final) - if final then 1 else 0
  }

  /** Enough input for `n` bits, if there is any. */
  predicate Supplies(data: Option<seq<byte>>, n: nat) { data.Some? ==> n <= 8 * |data.value| }

  function Chunk(data: Option<seq<byte>>, m: nat): Option<seq<byte>>
    requires Supplies(data, 8 * m)
  {
    if data.Some? then Some(data.value[..m]) else None
  }

  function LastBit(data: Option<seq<byte>>, n: nat): bool
    requires n > 0
  {
    data.Some? && BitAt(data.value, n - 1)
  }

  /** Enough bytes for the residual bits, when there are any. */
  predicate Spare(data: Option<seq<byte>>, m: nat) { data.Some? ==> m < |data.value| }

  function WholePart(back: bool, data: Option<seq<byte>>, m: nat): seq<Command>
    requires Supplies(data, 8 * m)
  {
    if m == 0 then [] else [Whole(back, Chunk(data, m), m)]
  }

  function BitsPart(back: bool, data: Option<seq<byte>>, m: nat, k: nat): seq<Command>
    requires k > 0 ==> Spare(data, m)
  {
    if k == 0 then [] else [Bits(back, if data.Some? then Some(data.value[m]) else None, k)]
  }

  /** TMS high for one bit, with the last bit of the input in the top of the byte. */
  function TmsPart(back: bool, data: Option<seq<byte>>, n: nat, final: bool): seq<Command>
    requires n > 0
  {
    if final then [Tms(back, if LastBit(data, n) then 0x81 else 0x01, 1)] else []
  }

  function Commands(back: bool, data: Option<seq<byte>>, n: nat, final: bool): seq<Command>
    requires n > 0 && Supplies(data, n)
  {
    var m := WholeBytes(n, final);
    WholePart(back, data, m) + BitsPart(back, data, m, BitCount(n, final)) + TmsPart(back, data, n, final)
  }

  // ----- what it should do ----------------------------------------------------------------------------

  /** The pins wanted at edge `i` of a shift of `n` bits: the input in order, TMS raised only on the
      last bit and only if asked. Without input TDI is left alone, except that the TMS command drives
      it low. */
  function Want(pins: Pins, data: Option<seq<byte>>, n: nat, final: bool): nat -> Pins {
    (i: nat) =>
      var last := final && i + 1 == n;
      Pins(pins.tms || last,
           match data
           case Some(bytes) => BitAt(bytes, i)
           case None => pins.tdi && !last)
  }

  /** The replies wanted: one per whole byte, one for the residual bits, one for the TMS bit. */
  function Answers(w: World, e: nat, back: bool, n: nat, final: bool): (r: seq<byte>)
    requires n > 0
  {
    var m, k := WholeBytes(n, final), BitCount(n, final);
    WholeAnswer(w, e, back, m) + BitsAnswer(w, e + 8 * m, back, k)
    + if final then TmsAnswer(w, e + (n - 1), back) else []
  }

  function WholeAnswer(w: World, e: nat, back: bool, m: nat): seq<byte> { if back then Replies(w, e, m) else [] }

  function BitsAnswer(w: World, e: nat, back: bool, k: nat): seq<byte>
    requires k < 8
  {
    if back && k > 0 then [w.reply(e, k)] else []
  }

  function TmsAnswer(w: World, e: nat, back: bool): seq<byte> { if back then [w.reply(e, 1)] else [] }

  predicate Same(f: nat -> Pins, g: nat -> Pins, c: nat, n: nat) { forall i: nat | i < n :: f(i) == g(c + i) }

  lemma {:induction false} TabulateSame(f: nat -> Pins, g: nat -> Pins, c: nat, n: nat)
    requires Same(f, g, c, n)
    ensures Tabulate(f, 0, n) == Tabulate(g, c, c + n)
  {
    if n > 0 { TabulateSame(f, g, c, n - 1); }
  }

  lemma {:induction false} TabulateSplit<T>(f: nat -> T, a: nat, b: nat, c: nat)
    requires a <= b <= c
    ensures Tabulate(f, a, c) == Tabulate(f, a, b) + Tabulate(f, b, c)
    decreases c - b
  {
    if b < c { TabulateSplit(f, a, b, c - 1); }
  }

  /** `count` edges of the shift are done, all before any TMS command. */
  predicate Partway(want: nat -> Pins, writes: bool, count: nat, before: Device, d: Device, replies: seq<byte>) {
    && d.pins.tms == before.pins.tms && (!writes ==> d.pins == before.pins)
    && d.edges == before.edges + Tabulate(want, 0, count) && |d.edges| == |before.edges| + count
    && d.replies == before.replies + replies
  }

  lemma {:induction false} PartwayMore(want: nat -> Pins, writes: bool, count: nat, j: nat, before: Device, d: Device,
                                       replies: seq<byte>, line: seq<Pins>, more: seq<byte>)
    requires Partway(want, writes, count, before, d, replies)
    requires j > 0 && line == Tabulate(want, count, count + j)
    requires want(count + j - 1).tms == before.pins.tms && (!writes ==> want(count + j - 1) == before.pins)
    ensures Partway(want, writes, count + j, before, Clocked(d, line, more), replies + more)
  {
    TabulateSplit(want, 0, count, count + j);
    TabulateAt(want, count, count + j, j - 1);
  }

  lemma {:induction false} BitOfChunk(data: seq<byte>, m: nat, chunk: seq<byte>, i: nat)
    requires i < 8 * |chunk| && m + |chunk| <= |data| && chunk == data[m..m + |chunk|]
    ensures BitAt(chunk, i) == BitAt(data, 8 * m + i)
  {
    var x := i / 8;
    assert (8 * m + i) / 8 == m + x && (8 * m + i) % 8 == i % 8;
    assert chunk[x] == data[m + x];
  }

  lemma {:induction false} WantData(pins: Pins, data: Option<seq<byte>>, n: nat, final: bool, i: nat)
    requires i + (if final then 1 else 0) < n && data.Some?
    ensures Want(pins, data, n, final)(i) == Pins(pins.tms, BitAt(data.value, i))
  {
  }

  lemma {:induction false} DataSame(pins: Pins, data: Option<seq<byte>>, n: nat, final: bool, m: nat,
                                    chunk: seq<byte>, j: nat)
    requires 8 * m + j + (if final then 1 else 0) <= n && data.Some?
    requires j <= 8 * |chunk| && m + |chunk| <= |data.value| && chunk == data.value[m..m + |chunk|]
    ensures Same(DataLine(pins.tms, chunk), Want(pins, data, n, final), 8 * m, j)
  {
    forall i: nat | i < j ensures DataLine(pins.tms, chunk)(i) == Want(pins, data, n, final)(8 * m + i) {
      BitOfChunk(data.value, m, chunk, i);
      WantData(pins, data, n, final, 8 * m + i);
    }
  }

  lemma {:induction false} HeldSame(pins: Pins, data: Option<seq<byte>>, n: nat, final: bool, c: nat, j: nat)
    requires c + j + (if final then 1 else 0) <= n && data.None?
    ensures Same(HoldLine(pins), Want(pins, data, n, final), c, j)
  {
  }

  /** One data command's bits are the ones wanted next, `m` whole bytes being done. */
  lemma {:induction false} ShiftedIsWanted(pins: Pins, now: Pins, data: Option<seq<byte>>, n: nat, final: bool,
                                           m: nat, chunk: Option<seq<byte>>, j: nat, want: nat -> Pins, c: nat)
    requires now.tms == pins.tms && (data.None? ==> now == pins) && chunk.Some? == data.Some?
    requires 8 * m + j + (if final then 1 else 0) <= n && c == 8 * m && want == Want(pins, data, n, final)
    requires data.Some? ==>
      && j <= 8 * |chunk.value| && m + |chunk.value| <= |data.value|
      && chunk.value == data.value[m..m + |chunk.value|]
    ensures Shifted(now, chunk, j) == Tabulate(want, c, c + j)
  {
    if data.Some? {
      DataSame(pins, data, n, final, m, chunk.value, j);
      TabulateSame(DataLine(now.tms, chunk.value), want, c, j);
    } else {
      HeldSame(pins, data, n, final, c, j);
      TabulateSame(HoldLine(now), want, c, j);
    }
  }

  /** Before the held-back bit TMS stays, and TDI too if nothing is written. */
  lemma {:induction false} WantHolds(pins: Pins, data: Option<seq<byte>>, n: nat, final: bool, i: nat)
    requires i + 1 + (if final then 1 else 0) <= n
    ensures Want(pins, data, n, final)(i).tms == pins.tms && (data.None? ==> Want(pins, data, n, final)(i) == pins)
  {
  }

  lemma {:induction false} WholeMeaning(w: World, d: Device, back: bool, data: Option<seq<byte>>, n: nat, final: bool,
                                        m: nat, want: nat -> Pins)
    requires Supplies(data, 8 * m) && 8 * m + (if final then 1 else 0) <= n && want == Want(d.pins, data, n, final)
    ensures Partway(want, data.Some?, 8 * m, d, ExecuteAll(w, d, WholePart(back, data, m)),
        WholeAnswer(w, |d.edges|, back, m))
  {
    if m > 0 {
      var line, replies := Shifted(d.pins, Chunk(data, m), 8 * m), WholeAnswer(w, |d.edges|, back, m);
      assert WholePart(back, data, m)[..0] == [];
      assert ExecuteAll(w, d, WholePart(back, data, m)) == Clocked(d, line, replies);
      NextIsWanted(d.pins, d.pins, data, n, final, 0, Chunk(data, m), 8 * m, want, 0);
      PartwayMore(want, data.Some?, 0, 8 * m, d, d, [], line, replies);
      assert [] + replies == replies;
    }
  }

  function Residue(data: Option<seq<byte>>, m: nat): Option<seq<byte>>
    requires Spare(data, m)
  {
    if data.Some? then Some([data.value[m]]) else None
  }

  lemma {:induction false} BitsExecuted(w: World, d: Device, back: bool, data: Option<seq<byte>>, m: nat, k: nat)
    requires 0 < k < 8 && Spare(data, m)
    ensures Execute(w, d, BitsPart(back, data, m, k)[0])
         == Clocked(d, Shifted(d.pins, Residue(data, m), k), BitsAnswer(w, |d.edges|, back, k))
  {
  }

  lemma {:induction false} BitsMeaning(before: Device, d: Device, data: Option<seq<byte>>, n: nat, final: bool,
                                       m: nat, k: nat, replies: seq<byte>, more: seq<byte>, want: nat -> Pins)
    requires 0 < k < 8 && Spare(data, m) && 8 * m + k + (if final then 1 else 0) == n
    requires want == Want(before.pins, data, n, final)
    requires Partway(want, data.Some?, 8 * m, before, d, replies)
    ensures Partway(want, data.Some?, 8 * m + k, before,
                    Clocked(d, Shifted(d.pins, Residue(data, m), k), more), replies + more)
  {
    var chunk := Residue(data, m);
    NextIsWanted(before.pins, d.pins, data, n, final, m, chunk, k, want, 8 * m);
    PartwayMore(want, data.Some?, 8 * m, k, before, d, replies, Shifted(d.pins, chunk, k), more);
  }

  lemma {:induction false} NextIsWanted(pins: Pins, now: Pins, data: Option<seq<byte>>, n: nat, final: bool, m: nat,
                                        chunk: Option<seq<byte>>, j: nat, want: nat -> Pins, c: nat)
    requires now.tms == pins.tms && (data.None? ==> now == pins) && chunk.Some? == data.Some? && j > 0
    requires 8 * m + j + (if final then 1 else 0) <= n && c == 8 * m && want == Want(pins, data, n, final)
    requires data.Some? ==>
      && j <= 8 * |chunk.value| && m + |chunk.value| <= |data.value|
      && chunk.value == data.value[m..m + |chunk.value|]
    ensures Shifted(now, chunk, j) == Tabulate(want, c, c + j)
    ensures want(c + j - 1).tms == pins.tms && (data.None? ==> want(c + j - 1) == pins)
  {
    ShiftedIsWanted(pins, now, data, n, final, m, chunk, j, want, c);
    WantHolds(pins, data, n, final, c + j - 1);
  }

  lemma {:induction false} TmsByte(last: bool)
    ensures var b := if last then 0x81 else 0x01; Bit(b, 0) && Bit(b, 7) == last
  {
    assert Bit(0x81, 7) == Bit(1, 0);
    assert Bit(0x01, 7) == Bit(0, 6);
    BitOfZero(6);
  }

  lemma {:induction false} TmsMeaning(w: World, before: Device, d: Device, back: bool, data: Option<seq<byte>>,
                                      n: nat, replies: seq<byte>, e: nat)
    requires n > 0 && e == |before.edges| + (n - 1)
    requires Partway(Want(before.pins, data, n, true), data.Some?, n - 1, before, d, replies)
    ensures Finished(Want(before.pins, data, n, true), n, before, Execute(w, d, TmsPart(back, data, n, true)[0]),
        replies + TmsAnswer(w, e, back))
  {
    var want, value := Want(before.pins, data, n, true), if LastBit(data, n) then 0x81 else 0x01;
    TmsByte(LastBit(data, n));
    var f := TmsLine(value);
    assert Tabulate(f, 0, 0) == [] && Tabulate(f, 0, 1) == [f(0)];
    assert f(0) == Pins(true, LastBit(data, n)) == want(n - 1);
    assert Tabulate(want, 0, n) == Tabulate(want, 0, n - 1) + [want(n - 1)];
  }

  predicate Finished(want: nat -> Pins, n: nat, before: Device, d: Device, replies: seq<byte>) {
    d.edges == before.edges + Tabulate(want, 0, n) && d.replies == before.replies + replies
  }

  lemma {:induction false} ExecuteMore(w: World, d: Device, cs: seq<Command>, c: seq<Command>)
    requires |c| <= 1
    ensures ExecuteAll(w, d, cs + c) == if c == [] then ExecuteAll(w, d, cs) else Execute(w, ExecuteAll(w, d, cs), c[0])
  {
    if c == [] { assert cs + c == cs; } else { assert (cs + c)[..|cs|] == cs; }
  }

  /** The data commands. */
  lemma {:induction false} DataMeaning(w: World, d: Device, back: bool, data: Option<seq<byte>>, n: nat, final: bool,
                                       m: nat, k: nat, want: nat -> Pins)
    requires Supplies(data, 8 * m) && (k > 0 ==> Spare(data, m)) && k < 8 && 8 * m + k + (if final then 1 else 0) == n
    requires want == Want(d.pins, data, n, final)
    ensures Partway(want, data.Some?, 8 * m + k, d,
                    ExecuteAll(w, d, WholePart(back, data, m) + BitsPart(back, data, m, k)),
                    WholeAnswer(w, |d.edges|, back, m) + BitsAnswer(w, |d.edges| + 8 * m, back, k))
  {
    var a, b := WholePart(back, data, m), BitsPart(back, data, m, k);
    var now, r1 := ExecuteAll(w, d, a), WholeAnswer(w, |d.edges|, back, m);
    WholeMeaning(w, d, back, data, n, final, m, want);
    ExecuteMore(w, d, a, b);
    if k > 0 {
      BitsExecuted(w, now, back, data, m, k);
      BitsMeaning(d, now, data, n, final, m, k, r1, BitsAnswer(w, |d.edges| + 8 * m, back, k), want);
    } else {
      assert r1 + [] == r1 && 8 * m + k == 8 * m;
    }
  }

  lemma {:induction false} LastMeaning(w: World, before: Device, d: Device, back: bool, data: Option<seq<byte>>,
                                       n: nat, final: bool, count: nat, replies: seq<byte>)
    requires n > 0 && count + (if final then 1 else 0) == n
    requires Partway(Want(before.pins, data, n, final), data.Some?, count, before, d, replies)
    ensures var c := TmsPart(back, data, n, final);
            Finished(Want(before.pins, data, n, final), n, before, if c == [] then d else Execute(w, d, c[0]),
                     replies + if final then TmsAnswer(w, |before.edges| + (n - 1), back) else [])
  {
    if final {
      TmsMeaning(w, before, d, back, data, n, replies, |before.edges| + (n - 1));
    } else {
      assert replies + [] == replies;
    }
  }

  lemma {:induction false} AnswersParts(w: World, e: nat, back: bool, n: nat, final: bool, m: nat, k: nat)
    requires n > 0 && m == WholeBytes(n, final) && k == BitCount(n, final)
    ensures Answers(w, e, back, n, final)
      == WholeAnswer(w, e, back, m) + BitsAnswer(w, e + 8 * m, back, k)
         + if final then TmsAnswer(w, e + (n - 1), back) else []
  {
  }

  lemma {:induction false} CommandsParts(back: bool, data: Option<seq<byte>>, n: nat, final: bool, m: nat, k: nat)
    requires n > 0 && Supplies(data, n) && m == WholeBytes(n, final) && k == BitCount(n, final)
    ensures Supplies(data, 8 * m) && (k > 0 ==> Spare(data, m))
    ensures Commands(back, data, n, final) == WholePart(back, data, m) + BitsPart(back, data, m, k)
        + TmsPart(back, data, n, final)
  {
  }

  /** All three. */
  lemma {:induction false} AllMeaning(w: World, d: Device, back: bool, data: Option<seq<byte>>, n: nat, final: bool,
                                      m: nat, k: nat, ab: seq<Command>, c: seq<Command>, r2: seq<byte>)
    requires n > 0 && Supplies(data, 8 * m) && (k > 0 ==> Spare(data, m)) && k < 8
        && 8 * m + k + (if final then 1 else 0) == n
    requires c == TmsPart(back, data, n, final)
    requires Partway(Want(d.pins, data, n, final), data.Some?, 8 * m + k, d, ExecuteAll(w, d, ab), r2)
    ensures Finished(Want(d.pins, data, n, final), n, d, ExecuteAll(w, d, ab + c),
                     r2 + if final then TmsAnswer(w, |d.edges| + (n - 1), back) else [])
  {
    ExecuteMore(w, d, ab, c);
    LastMeaning(w, d, ExecuteAll(w, d, ab), back, data, n, final, 8 * m + k, r2);
  }

  lemma {:induction false} PartsMeaning(w: World, d: Device, back: bool, data: Option<seq<byte>>, n: nat, final: bool,
                                        m: nat, k: nat)
    requires n > 0 && Supplies(data, 8 * m) && (k > 0 ==> Spare(data, m)) && k < 8
        && 8 * m + k + (if final then 1 else 0) == n
    ensures Finished(Want(d.pins, data, n, final), n, d,
                     ExecuteAll(w, d, WholePart(back, data, m) + BitsPart(back, data, m, k)
                         + TmsPart(back, data, n, final)),
                     WholeAnswer(w, |d.edges|, back, m) + BitsAnswer(w, |d.edges| + 8 * m, back, k)
                     + if final then TmsAnswer(w, |d.edges| + (n - 1), back) else [])
  {
    var ab, c := WholePart(back, data, m) + BitsPart(back, data, m, k), TmsPart(back, data, n, final);
    DataMeaning(w, d, back, data, n, final, m, k, Want(d.pins, data, n, final));
    AllMeaning(w, d, back, data, n, final, m, k, ab, c,
               WholeAnswer(w, |d.edges|, back, m) + BitsAnswer(w, |d.edges| + 8 * m, back, k));
  }

  lemma {:induction false} CommandsEncodable(back: bool, data: Option<seq<byte>>, n: nat, final: bool)
    requires (back || data.Some?) && n > 0 && Supplies(data, n)
    ensures var cs := Commands(back, data, n, final);
            AllEncodable(cs) && (WholeBytes(n, final) <= LONGEST ==> AllExact(cs))
  {
  }

  lemma {:induction false} ExactMeaning(w: World, d: Device, back: bool, data: Option<seq<byte>>, n: nat, final: bool)
    requires (back || data.Some?) && n > 0 && Supplies(data, n) && WholeBytes(n, final) <= LONGEST
    ensures var cs := Commands(back, data, n, final);
            && AllEncodable(cs)
            && Aligned(EncodeAll(cs))
            && Finished(Want(d.pins, data, n, final), n, d, Run(w, d, EncodeAll(cs)),
                Answers(w, |d.edges|, back, n, final))
  {
    CommandsEncodable(back, data, n, final);
    var cs := Commands(back, data, n, final);
    ExecutedMeaning(w, d, back, data, n, final, cs);
    EncodedRun(w, d, cs);
  }

  // ----- any length ---------------------------------------------------------------------------------------

  /** The whole bytes the device takes a 16-bit length field of one less to mean. */
  function FieldCount(m: nat): (r: nat)
    ensures r <= m && r <= LONGEST && (r == m <==> m <= LONGEST) && (m > 0 <==> r > 0)
  {
    if m == 0 then 0 else (m - 1) % LONGEST + 1
  }

  /** The bits clocked for a shift of `n`. */
  function Clocks(n: nat, final: bool): (r: nat)
    requires n > 0
    ensures 0 < r <= n && (r == n <==> WholeBytes(n, final) <= LONGEST)
    ensures WholeBytes(r, final) == FieldCount(WholeBytes(n, final)) && BitCount(r, final) == BitCount(n, final)
  {
    var m := WholeBytes(n, final);
    ClocksParts(n, final, FieldCount(m));
    n - 8 * (m - FieldCount(m))
  }

  lemma {:induction false} ClocksParts(n: nat, final: bool, r: nat)
    requires n > 0 && r <= WholeBytes(n, final) && (r == 0 ==> WholeBytes(n, final) == 0)
    ensures var s := n - 8 * (WholeBytes(n, final) - r);
            0 < s && WholeBytes(s, final) == r && BitCount(s, final) == BitCount(n, final)
  {
    var m, k := WholeBytes(n, final), BitCount(n, final);
    var s := 8 * r + k + if final then 1 else 0;
    assert s == n - 8 * (m - r);
  }

  lemma {:induction false} SameField(m: nat)
    requires m > 0
    ensures LengthField(m) == LengthField(FieldCount(m))
  {
    var x, y := m - 1, (m - 1) % LONGEST;
    LowHalf(x);
    LowHalf(y);
    assert y < LONGEST;
    Digits(x % 256, x / 256 % 256, y % 256, y / 256 % 256);
  }

  lemma {:induction false} Digits(a: nat, b: nat, c: nat, d: nat)
    requires a < 256 && b < 256 && c < 256 && d < 256 && a + 256 * b == c + 256 * d
    ensures a == c && b == d
  {
  }

  /** A read-only shift queues the same bytes as the shorter one the device makes of it. */
  lemma {:induction false} SameBytes(n: nat, final: bool)
    requires n > 0
    ensures var cs, short := Commands(true, None, n, final), Commands(true, None, Clocks(n, final), final);
            AllEncodable(cs) && AllEncodable(short) && EncodeAll(cs) == EncodeAll(short)
  {
    var r := Clocks(n, final);
    var m, k := WholeBytes(n, final), BitCount(n, final);
    CommandsEncodable(true, None, n, final);
    CommandsEncodable(true, None, r, final);
    CommandsParts(true, None, n, final, m, k);
    CommandsParts(true, None, r, final, FieldCount(m), k);
    var rest := BitsPart(true, None, m, k) + TmsPart(true, None, n, final);
    assert Commands(true, None, n, final) == WholePart(true, None, m) + rest;
    assert Commands(true, None, r, final) == WholePart(true, None, FieldCount(m)) + rest;
    if m > 0 {
      SameField(m);
      SameHead(Whole(true, None, m), Whole(true, None, FieldCount(m)), rest);
    }
  }

  lemma {:induction false} SameHead(a: Command, b: Command, rest: seq<Command>)
    requires Encodable(a) && Encodable(b) && Encode(a) == Encode(b) && AllEncodable(rest)
    ensures AllEncodable([a] + rest) && AllEncodable([b] + rest) && EncodeAll([a] + rest) == EncodeAll([b] + rest)
  {
    var n := |rest|;
    if n == 0 {
      assert [a] + rest == [a] && [b] + rest == [b] && [a][..0] == [] && [b][..0] == [];
    } else {
      var front := rest[..n - 1];
      assert ([a] + rest)[..n] == [a] + front && ([b] + rest)[..n] == [b] + front;
      SameHead(a, b, front);
    }
  }

  /** The queued bytes mean a shift: every bit once and in order, with TMS as asked, and a reply byte for
      each part that reads. It is the shift asked for unless that is longer than the length field holds;
      with input it never is, since the host's buffer is smaller. */
  lemma {:induction false} CommandsMeaning(w: World, d: Device, back: bool, data: Option<seq<byte>>, n: nat,
                                           final: bool)
    requires (back || data.Some?) && n > 0 && Supplies(data, n) && (data.Some? ==> WholeBytes(n, final) <= LONGEST)
    ensures var cs, r := Commands(back, data, n, final), Clocks(n, final);
            && AllEncodable(cs)
            && Aligned(EncodeAll(cs))
            && Finished(Want(d.pins, data, r, final), r, d, Run(w, d, EncodeAll(cs)),
                Answers(w, |d.edges|, back, r, final))
  {
    if data.Some? {
      ExactMeaning(w, d, back, data, n, final);
    } else {
      SameBytes(n, final);
      ExactMeaning(w, d, back, data, Clocks(n, final), final);
    }
  }

  /** A read-only shift clocks as many bits as asked for if and only if its whole bytes are at most 65536. */
  lemma {:induction false} ShiftClocksIff(w: World, d: Device, n: nat, final: bool)
    requires n > 0
    ensures AllEncodable(Commands(true, None, n, final))
    ensures |Run(w, d, EncodeAll(Commands(true, None, n, final))).edges| == |d.edges| + n
        <==> WholeBytes(n, final) <= LONGEST
  {
    CommandsMeaning(w, d, true, None, n, final);
  }

  lemma {:induction false} ExecutedMeaning(w: World, d: Device, back: bool, data: Option<seq<byte>>, n: nat,
                                           final: bool, cs: seq<Command>)
    requires n > 0 && Supplies(data, n) && cs == Commands(back, data, n, final)
    ensures Finished(Want(d.pins, data, n, final), n, d, ExecuteAll(w, d, cs), Answers(w, |d.edges|, back, n, final))
  {
    var m, k := WholeBytes(n, final), BitCount(n, final);
    CommandsParts(back, data, n, final, m, k);
    AnswersParts(w, |d.edges|, back, n, final, m, k);
    PartsExecuted(w, d, back, data, n, final, m, k, cs, Answers(w, |d.edges|, back, n, final));
  }

  lemma {:induction false} PartsExecuted(w: World, d: Device, back: bool, data: Option<seq<byte>>, n: nat,
                                         final: bool, m: nat, k: nat, cs: seq<Command>, replies: seq<byte>)
    requires n > 0 && Supplies(data, 8 * m) && (k > 0 ==> Spare(data, m)) && k < 8
        && 8 * m + k + (if final then 1 else 0) == n
    requires cs == WholePart(back, data, m) + BitsPart(back, data, m, k) + TmsPart(back, data, n, final)
    requires replies == WholeAnswer(w, |d.edges|, back, m) + BitsAnswer(w, |d.edges| + 8 * m, back, k)
                        + if final then TmsAnswer(w, |d.edges| + (n - 1), back) else []
    ensures Finished(Want(d.pins, data, n, final), n, d, ExecuteAll(w, d, cs), replies)
  {
    PartsMeaning(w, d, back, data, n, final, m, k);
  }
}
