/** Bits of bytes and buffers, and the levels that go out on a JTAG port. */
module BitStreams {
  import opened Common

  // ----- bits ---------------------------------------------------------------------------------------

  function Bit(b: nat, k: nat): bool
    decreases k
  {
    if k == 0 then b % 2 == 1 else Bit(b / 2, k - 1)
  }

  function Shr(b: nat, k: nat): (r: nat)
    ensures r <= b
  {
    if k == 0 then b else Shr(b / 2, k - 1)
  }

  function SetBit(b: nat, k: nat): nat {
    if k == 0 then (if b % 2 == 1 then b else b + 1) else 2 * SetBit(b / 2, k - 1) + b % 2
  }

  lemma {:induction false} BitOfZero(k: nat)
    ensures !Bit(0, k)
    decreases k
  {
    if k > 0 { BitOfZero(k - 1); }
  }

  lemma {:induction false} BitOfShr(b: nat, j: nat, k: nat)
    ensures Bit(Shr(b, j), k) == Bit(b, j + k)
    decreases j
  {
    if j > 0 { BitOfShr(b / 2, j - 1, k); }
  }

  lemma {:induction false} BitOfSetBit(b: nat, j: nat, k: nat)
    ensures Bit(SetBit(b, j), k) == (k == j || Bit(b, k))
    decreases j
  {
    if j == 0 {
      assert SetBit(b, 0) / 2 == b / 2;
    } else {
      assert SetBit(b, j) / 2 == SetBit(b / 2, j - 1) && SetBit(b, j) % 2 == b % 2;
      if k > 0 { BitOfSetBit(b / 2, j - 1, k - 1); }
    }
  }

  lemma {:induction false} SetBitFits(b: nat, j: nat, n: nat)
    requires j < n && b < Pow2(n)
    ensures SetBit(b, j) < Pow2(n)
    decreases j
  {
    var q := Pow2(n - 1);
    if j > 0 {
      SetBitFits(b / 2, j - 1, n - 1);
      Doubled(b, SetBit(b / 2, j - 1), q);
    } else {
      Doubled(b, b / 2, q);
    }
  }

  lemma {:induction false} Doubled(b: nat, x: nat, q: nat)
    requires x < q
    ensures 2 * x + b % 2 < 2 * q && 2 * x + 1 < 2 * q
  {
  }

  /** Bit `i` of a buffer. */
  predicate BitAt(data: seq<byte>, i: nat) { i < 8 * |data| && Bit(data[i / 8], i % 8) }

  /** The levels of TMS and TDI at a rising edge of TCK. */
  datatype Pins = Pins(tms: bool, tdi: bool)

  /** Values of `f` on `a..b`. */
  function Tabulate<T>(f: nat -> T, a: nat, b: nat): (r: seq<T>)
    requires a <= b
    ensures |r| == b - a
    decreases b - a
  {
    if a == b then [] else Tabulate(f, a, b - 1) + [f(b - 1)]
  }

  lemma {:induction false} TabulateAt<T>(f: nat -> T, a: nat, b: nat, j: nat)
    requires a <= b && j < b - a
    ensures Tabulate(f, a, b)[j] == f(a + j)
    decreases b - a
  {
    if j < b - 1 - a { TabulateAt(f, a, b - 1, j); }
  }
}
