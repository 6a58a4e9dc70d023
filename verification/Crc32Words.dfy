/** CRC-32 on 32-bit registers written out as bits, most significant first: the plain
    definition, one message bit at a time, and the algebra that lets bits be taken in groups. */
module Crc32Words {
  type Word = s: seq<bool> | |s| == 32 witness seq(32, _ => false)

  function Xor(a: Word, b: Word): (r: Word)
    ensures forall i | 0 <= i < 32 :: r[i] == (a[i] != b[i])
  {
    seq(32, i requires 0 <= i < 32 => a[i] != b[i])
  }

  function Shl(a: Word): (r: Word)
    ensures forall i | 0 <= i < 32 :: r[i] == (i < 31 && a[i + 1])
  {
    a[1..] + [false]
  }

  /** 0x04c11db7: bits 26, 23, 22, 16, 12, 11, 10, 8, 7, 5, 4, 2, 1 and 0. */
  const POLY: Word := [
    false, false, false, false, false, true, false, false,
    true, true, false, false, false, false, false, true,
    false, false, false, true, true, true, false, true,
    true, false, true, true, false, true, true, true]

  // ----- the definition ----------------------------------------------------------------------------

  /** Shift in one message bit and reduce by the polynomial. */
  function Feed(w: Word, bit: bool): Word {
    if w[0] != bit then Xor(Shl(w), POLY) else Shl(w)
  }

  function FeedAll(w: Word, bits: seq<bool>): Word
    decreases |bits|
  {
    if bits == [] then w else FeedAll(Feed(w, bits[0]), bits[1..])
  }

  // ----- taking bits in groups -----------------------------------------------------------------------

  /** One division step without new input. */
  function Div(w: Word): Word { Feed(w, false) }

  function DivN(w: Word, n: nat): Word
    decreases n
  {
    if n == 0 then w else DivN(Div(w), n - 1)
  }

  /** `bits` in the top positions, zeros below. */
  function Place(bits: seq<bool>): (r: Word)
    requires |bits| <= 32
    ensures forall i | 0 <= i < 32 :: r[i] == (i < |bits| && bits[i])
  {
    seq(32, i requires 0 <= i < 32 => i < |bits| && bits[i])
  }

  lemma {:induction false} XorZero(a: Word)
    ensures Xor(a, Place([])) == a
  {
  }

  lemma {:induction false} XorAssoc(a: Word, b: Word, c: Word)
    ensures Xor(Xor(a, b), c) == Xor(a, Xor(b, c))
  {
  }

  /** A bit fed in is a bit added at the top before the step. */
  lemma {:induction false} FeedIsDiv(w: Word, bit: bool)
    ensures Feed(w, bit) == Div(Xor(w, Place([bit])))
  {
    assert Shl(Xor(w, Place([bit]))) == Shl(w);
  }

  /** The division step is linear. */
  lemma {:induction false} DivLinear(a: Word, b: Word)
    ensures Div(Xor(a, b)) == Xor(Div(a), Div(b))
  {
    var l, r := Div(Xor(a, b)), Xor(Div(a), Div(b));
    forall i | 0 <= i < 32 ensures l[i] == r[i] { }
  }

  lemma {:induction false} DivOfLow(b: Word)
    requires !b[0]
    ensures Div(b) == Shl(b)
  {
  }

  lemma {:induction false} DivNLinear(a: Word, b: Word, n: nat)
    ensures DivN(Xor(a, b), n) == Xor(DivN(a, n), DivN(b, n))
    decreases n
  {
    if n > 0 {
      DivLinear(a, b);
      DivNLinear(Div(a), Div(b), n - 1);
    }
  }

  /** Feeding up to 32 bits one at a time, or adding them all to the top of the register and
      dividing as many times, is the same. */
  lemma {:induction false} FeedAllIsDivN(w: Word, bits: seq<bool>)
    requires |bits| <= 32
    ensures FeedAll(w, bits) == DivN(Xor(w, Place(bits)), |bits|)
    decreases |bits|
  {
    if bits == [] {
      XorZero(w);
    } else {
      var b, rest := bits[0], bits[1..];
      var low := Place([false] + rest);
      assert Place(bits) == Xor(Place([b]), low);
      XorAssoc(w, Place([b]), low);
      FeedIsDiv(w, b);
      DivLinear(Xor(w, Place([b])), low);
      DivOfLow(low);
      assert Shl(low) == Place(rest);
      FeedAllIsDivN(Feed(w, b), rest);
    }
  }

  lemma {:induction false} FeedAllThen(w: Word, a: seq<bool>, b: seq<bool>)
    ensures FeedAll(w, a + b) == FeedAll(FeedAll(w, a), b)
    decreases |a|
  {
    if a == [] {
      assert a + b == b;
    } else {
      assert (a + b)[1..] == a[1..] + b;
      FeedAllThen(Feed(w, a[0]), a[1..], b);
    }
  }

  /** The register without its top `n` bits, moved up by `n`. */
  function ShlN(w: Word, n: nat): (r: Word)
    requires n <= 32
    ensures forall i | 0 <= i < 32 :: r[i] == (i + n < 32 && w[i + n])
  {
    seq(32, i requires 0 <= i < 32 => i + n < 32 && w[i + n])
  }

  lemma {:induction false} DivNOfLow(w: Word, n: nat)
    requires n <= 32 && forall i | 0 <= i < n :: !w[i]
    ensures DivN(w, n) == ShlN(w, n)
    decreases n
  {
    if n == 0 {
      assert ShlN(w, 0) == w;
    } else {
      DivOfLow(w);
      DivNOfLow(Shl(w), n - 1);
      assert ShlN(Shl(w), n - 1) == ShlN(w, n);
    }
  }

  /** Dividing `n` times: what the top `n` bits leave behind, added to the rest moved up. */
  lemma {:induction false} DivNSplits(w: Word, n: nat)
    requires n <= 32
    ensures DivN(w, n) == Xor(ShlN(w, n), DivN(Place(w[..n]), n))
  {
    var top := Place(w[..n]);
    var low := Xor(w, top);
    assert w == Xor(low, top);
    DivNLinear(low, top, n);
    DivNOfLow(low, n);
    assert ShlN(low, n) == ShlN(w, n);
  }
}
