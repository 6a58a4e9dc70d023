/** The CRC by its name: it is CRC-32/MPEG-2, with the check value that has. */
module Crc32Check {
  import opened Common
  import opened Crc32Words
  import opened Crc32Table
  import opened Crc32

  // ----- registers as machine words ---------------------------------------------------------------------------

  /** `g` takes the step `h` to the step `f`. */
  ghost predicate Commutes<V(!new), W, B(!new)>(f: (W, B) -> W, h: (V, B) -> V, g: V -> W) {
    forall v: V, b: B :: f(g(v), b) == g(h(v, b))
  }

  /** What commutes with every step commutes with all of them. */
  lemma {:induction false} FoldCommutes<V(!new), W, B(!new)>(f: (W, B) -> W, h: (V, B) -> V, g: V -> W, c: V,
                                                             data: nat -> B, n: nat)
    requires Commutes(f, h, g)
    ensures Fold(f, g(c), data, n) == g(Fold(h, c, data, n))
  {
    if n > 0 { FoldCommutes(f, h, g, c, data, n - 1); }
  }

  /** A fold by its intermediate values. */
  lemma {:induction false} FoldThrough<V, B>(h: (V, B) -> V, data: nat -> B, values: seq<V>, n: nat)
    requires n < |values| && forall k: nat | k < n :: h(values[k], data(k)) == values[k + 1]
    ensures Fold(h, values[0], data, n) == values[n]
  {
    if n > 0 { FoldThrough(h, data, values, n - 1); }
  }

  /** One message bit on a machine word. */
  function FeedBit(c: bv32, bit: bool): bv32 {
    if (c & 0x8000_0000 != 0) != bit then (c << 1) ^ 0x04c1_1db7 else c << 1
  }

  lemma {:induction false} FeedIsFeedBit(c: bv32, bit: bool)
    ensures Feed(ToWord(c), bit) == ToWord(FeedBit(c, bit))
  {
    ToWordShl(c);
    ToWordShlPoly(c);
  }

  function BitOf(s: seq<bool>): nat -> bool { (i: nat) => i < |s| && s[i] }

  /** Bit by bit from either end. */
  lemma {:induction false} FeedAllIsFold(f: (Word, bool) -> Word, w: Word, s: seq<bool>)
    requires forall v: Word, b: bool :: f(v, b) == Feed(v, b)
    ensures FeedAll(w, s) == Fold(f, w, BitOf(s), |s|)
  {
    if s != [] {
      var front, b := s[..|s| - 1], s[|s| - 1];
      FeedAllIsFold(f, w, front);
      FoldPrefix(f, w, front, s);
      FeedLast(w, s, front, b);
    }
  }

  lemma {:induction false} FoldPrefix(f: (Word, bool) -> Word, w: Word, a: seq<bool>, b: seq<bool>)
    requires a <= b
    ensures Fold(f, w, BitOf(a), |a|) == Fold(f, w, BitOf(b), |a|)
  {
    FoldAlike(f, w, BitOf(a), BitOf(b), |a|);
  }

  lemma {:induction false} FoldAlike<W, B>(f: (W, B) -> W, w: W, a: nat -> B, b: nat -> B, n: nat)
    requires forall i: nat | i < n :: a(i) == b(i)
    ensures Fold(f, w, a, n) == Fold(f, w, b, n)
  {
    if n > 0 { FoldAlike(f, w, a, b, n - 1); }
  }

  lemma {:induction false} FeedLast(w: Word, s: seq<bool>, front: seq<bool>, b: bool)
    requires s == front + [b]
    ensures FeedAll(w, s) == Feed(FeedAll(w, front), b)
  {
    FeedAllThen(w, front, [b]);
    assert [b][1..] == [];
  }

  function FeedBits(): (bv32, bool) -> bv32 { (c: bv32, bit: bool) => FeedBit(c, bit) }

  function Four<V, B>(h: (V, B) -> V, v: V, a: B, b: B, c: B, d: B): V { h(h(h(h(v, a), b), c), d) }

  /** A byte, bit by bit. */
  function Eight<V>(h: (V, bool) -> V, v: V, s: Byte): V {
    Four(h, Four(h, v, s[0], s[1], s[2], s[3]), s[4], s[5], s[6], s[7])
  }

  function FeedEight(c: bv32, s: Byte): bv32 { Eight(FeedBits(), c, s) }

  lemma {:induction false} EightTurns<V, B>(h: (V, B) -> V, v: V, data: nat -> B)
    ensures Fold(h, v, data, 8)
         == Four(h, Four(h, v, data(0), data(1), data(2), data(3)), data(4), data(5), data(6), data(7))
  {
    FoldFour(h, v, data, 0);
    FoldFour(h, v, data, 4);
  }

  /** Whatever stands for a register, and its step for the step on registers. */
  lemma {:induction false} ByteFed<V(!new)>(f: (Word, bool) -> Word, h: (V, bool) -> V, g: V -> Word, v: V, s: Byte)
    requires forall w: Word, b: bool :: f(w, b) == Feed(w, b)
    requires Commutes(f, h, g)
    ensures FeedAll(g(v), s) == g(Eight(h, v, s))
  {
    FeedAllIsFold(f, g(v), s);
    EightFed(f, h, g, v, s);
  }

  lemma {:induction false} EightFed<V(!new)>(f: (Word, bool) -> Word, h: (V, bool) -> V, g: V -> Word, v: V, s: Byte)
    requires Commutes(f, h, g)
    ensures Fold(f, g(v), BitOf(s), 8) == g(Eight(h, v, s))
  {
    FoldCommutes(f, h, g, v, BitOf(s), 8);
    EightTurns(h, v, BitOf(s));
  }

  lemma {:induction false} BytesFed<V(!new)>(f: (Word, bool) -> Word, h: (V, bool) -> V, k: (V, Byte) -> V,
                                             g: V -> Word, v: V, data: nat -> Byte, n: nat)
    requires (forall w: Word, b: bool :: f(w, b) == Feed(w, b)) && Commutes(f, h, g)
    requires forall u: V, s: Byte :: k(u, s) == Eight(h, u, s)
    ensures Fold(FeedByte(), g(v), data, n) == g(Fold(k, v, data, n))
  {
    var step := FeedByte();
    forall u: V, s: Byte ensures step(g(u), s) == g(k(u, s)) { ByteFed(f, h, g, u, s); }
    assert Commutes(step, k, g);
    FoldCommutes(step, k, g, v, data, n);
  }

  // ----- the check value ----------------------------------------------------------------------------------------

  /** Every bit of the initial value is set. */
  lemma {:induction false} InitIsOnes()
    ensures INIT == ToWord(0xffff_ffff)
  {
  }

  /** The characters `123456789`. */
  predicate Digits(message: seq<Byte>) {
    && |message| == 9
    && message[0] == [false, false, true, true, false, false, false, true]
    && message[1] == [false, false, true, true, false, false, true, false]
    && message[2] == [false, false, true, true, false, false, true, true]
    && message[3] == [false, false, true, true, false, true, false, false]
    && message[4] == [false, false, true, true, false, true, false, true]
    && message[5] == [false, false, true, true, false, true, true, false]
    && message[6] == [false, false, true, true, false, true, true, true]
    && message[7] == [false, false, true, true, true, false, false, false]
    && message[8] == [false, false, true, true, true, false, false, true]
  }

  lemma {:induction false} Digit1(s: Byte)
    requires s == [false, false, true, true, false, false, false, true]
    ensures FeedEight(0xffff_ffff, s) == 0x9efb_cf93
  {
  }

  lemma {:induction false} Digit2(s: Byte)
    requires s == [false, false, true, true, false, false, true, false]
    ensures FeedEight(0x9efb_cf93, s) == 0x3fec_5e6a
  {
  }

  lemma {:induction false} Digit3(s: Byte)
    requires s == [false, false, true, true, false, false, true, true]
    ensures FeedEight(0x3fec_5e6a, s) == 0xd952_f164
  {
  }

  lemma {:induction false} Digit4(s: Byte)
    requires s == [false, false, true, true, false, true, false, false]
    ensures FeedEight(0xd952_f164, s) == 0xa695_c4aa
  {
  }

  lemma {:induction false} Digit5(s: Byte)
    requires s == [false, false, true, true, false, true, false, true]
    ensures FeedEight(0xa695_c4aa, s) == 0xbd9a_b747
  {
  }

  lemma {:induction false} Digit6(s: Byte)
    requires s == [false, false, true, true, false, true, true, false]
    ensures FeedEight(0xbd9a_b747, s) == 0xd8f0_6c8f
  {
  }

  lemma {:induction false} Digit7(s: Byte)
    requires s == [false, false, true, true, false, true, true, true]
    ensures FeedEight(0xd8f0_6c8f, s) == 0x0d8a_14c4
  {
  }

  lemma {:induction false} Digit8(s: Byte)
    requires s == [false, false, true, true, true, false, false, false]
    ensures FeedEight(0x0d8a_14c4, s) == 0x49e3_c2fb
  {
  }

  lemma {:induction false} Digit9(s: Byte)
    requires s == [false, false, true, true, true, false, false, true]
    ensures FeedEight(0x49e3_c2fb, s) == 0x0376_e6e7
  {
  }

  lemma {:induction false} DigitsFed(h: (bv32, Byte) -> bv32, data: nat -> Byte, message: seq<Byte>)
    requires Digits(message) && forall k: nat | k < 9 :: data(k) == message[k]
    requires forall c: bv32, s: Byte :: h(c, s) == FeedEight(c, s)
    ensures Fold(h, 0xffff_ffff, data, 9) == 0x0376_e6e7
  {
    var values: seq<bv32> := [
      0xffff_ffff, 0x9efb_cf93, 0x3fec_5e6a, 0xd952_f164, 0xa695_c4aa,
      0xbd9a_b747, 0xd8f0_6c8f, 0x0d8a_14c4, 0x49e3_c2fb, 0x0376_e6e7];
    Digit1(message[0]);
    Digit2(message[1]);
    Digit3(message[2]);
    Digit4(message[3]);
    Digit5(message[4]);
    Digit6(message[5]);
    Digit7(message[6]);
    Digit8(message[7]);
    Digit9(message[8]);
    FoldThrough(h, data, values, 9);
  }

  function Words(): bv32 -> Word { (c: bv32) => ToWord(c) }

  lemma {:induction false} MachineCommutes(f: (Word, bool) -> Word)
    requires forall w: Word, b: bool :: f(w, b) == Feed(w, b)
    ensures Commutes(f, FeedBits(), Words())
  {
    var h, g := FeedBits(), Words();
    forall v: bv32, b: bool ensures f(g(v), b) == g(h(v, b)) { FeedIsFeedBit(v, b); }
  }

  lemma {:induction false} CheckFold(data: nat -> Byte, message: seq<Byte>, init: bv32)
    requires Digits(message) && (forall k: nat | k < 9 :: data(k) == message[k]) && init == 0xffff_ffff
    ensures Fold(FeedByte(), Words()(init), data, 9) == Words()(0x0376_e6e7)
  {
    var f, k := (w: Word, b: bool) => Feed(w, b), (v: bv32, s: Byte) => FeedEight(v, s);
    MachineCommutes(f);
    BytesFed(f, FeedBits(), k, Words(), init, data, 9);
    DigitsFed(k, data, message);
  }

  /** Wherever in memory they lie, their CRC is 0x0376e6e7. */
  lemma {:induction false} CheckValue(mem: Memory, base: nat, message: seq<Byte>)
    requires Digits(message) && Lies(mem, base, message)
    ensures Crc(mem, base, 9) == ToWord(0x0376_e6e7)
  {
    InitIsOnes();
    CheckFold(Range(mem, base), message, 0xffff_ffff);
  }
}
