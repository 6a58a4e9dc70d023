/** Target memory as an access port reads it: the accesses of a read, tiled around the 1 KiB limit of the
    address auto-increment (section C2.2.2 of ADIv5.2). */
module DapTiling {
  import opened Common

  const PAGE: nat := 1024

  // ----- lanes -------------------------------------------------------------------------------------------

  lemma {:induction false} Mod4(x: nat, q: int, r: nat)
    requires x == 4 * q + r && r < 4
    ensures x % 4 == r
  {
  }

  lemma {:induction false} LaneSum(a: nat, b: nat)
    ensures (a + b) % 4 == (a % 4 + b % 4) % 4
  {
    var s := a % 4 + b % 4;
    Mod4(a + b, a / 4 + b / 4 + s / 4, s % 4);
  }

  /** Multiples of four do not change the lane. */
  lemma {:induction false} LaneShift(k: int, z: nat)
    requires 4 * k + z >= 0
    ensures (4 * k + z) % 4 == z % 4
  {
    Mod4(4 * k + z, k + z / 4, z % 4);
  }

  lemma {:induction false} LaneOfEven(x: nat)
    ensures x % 2 == 0 <==> x % 4 == 0 || x % 4 == 2
  {
    var q, r := x / 4, x % 4;
    assert x == 2 * (2 * q) + r;
    if r == 0 || r == 2 { Mod2(x, 2 * q + r / 2, 0); } else { Mod2(x, 2 * q + r / 2, 1); }
  }

  lemma {:induction false} Mod2(x: nat, q: int, r: nat)
    requires x == 2 * q + r && r < 2
    ensures x % 2 == r
  {
  }

  predicate IsUnit(u: nat) { u == 1 || u == 2 || u == 4 }

  /** A whole number of accesses of `u` bytes; for an address, one that suits the access. */
  predicate Whole(x: nat, u: nat)
    requires IsUnit(u)
  {
    u == 1 || x % 4 == 0 || (u == 2 && x % 4 == 2)
  }

  /** How many: a shift. */
  function Blocks(x: nat, u: nat): nat
    requires IsUnit(u)
  {
    if u == 4 then x / 4 else if u == 2 then x / 2 else x
  }

  /** `1 << MIN_ALIGN(x, y)`: the widest access that divides both. */
  function Unit(x: nat, y: nat): (u: nat)
    ensures IsUnit(u) && Whole(x, u) && Whole(y, u)
    ensures forall v: nat | IsUnit(v) && Whole(x, v) && Whole(y, v) :: v <= u
  {
    LaneOfEven(x);
    LaneOfEven(y);
    if x % 4 == 0 && y % 4 == 0 then 4 else if x % 2 == 0 && y % 2 == 0 then 2 else 1
  }

  lemma {:induction false} WholeSum(a: nat, b: nat, u: nat)
    requires IsUnit(u) && Whole(a, u) && Whole(b, u)
    ensures Whole(a + b, u)
  {
    LaneSum(a, b);
  }

  lemma {:induction false} WholeRest(a: nat, b: nat, u: nat)
    requires IsUnit(u) && Whole(a, u) && Whole(b, u) && b <= a
    ensures Whole(a - b, u)
  {
    LaneSum(a - b, b);
  }

  // ----- the access port -----------------------------------------------------------------------------------

  /** The address register after an access: only its low ten bits count up. */
  function Bump(tar: nat, unit: nat): nat {
    var low := tar % PAGE + unit;
    tar - tar % PAGE + if low >= PAGE then low - PAGE else low
  }

  function Mem(mem: nat -> byte, a: nat, n: nat): (r: seq<byte>)
    ensures |r| == n
  {
    if n == 0 then [] else Mem(mem, a, n - 1) + [mem(a + n - 1)]
  }

  /** Addresses are 32 bits wide. */
  ghost predicate Wraps(mem: nat -> byte) { forall a: nat :: WrapsAt(mem, a) }

  predicate WrapsAt(mem: nat -> byte, a: nat) { mem(a) == mem(a % U32) }

  /** The address register after `n` accesses, and the bytes they return. */
  function TarAfter(tar: nat, unit: nat, n: nat): nat {
    if n == 0 then tar else Bump(TarAfter(tar, unit, n - 1), unit)
  }

  function Burst(mem: nat -> byte, tar: nat, unit: nat, n: nat): seq<byte> {
    if n == 0 then [] else Burst(mem, tar, unit, n - 1) + Mem(mem, TarAfter(tar, unit, n - 1), unit)
  }

  function Times(n: nat, unit: nat): nat { if n == 0 then 0 else Times(n - 1, unit) + unit }

  /** The data register's word for an access of `unit` bytes at `a`: they are in the lanes of their
      addresses, and what the other lanes hold is not said. */
  function Lane(mem: nat -> byte, stale: (nat, nat) -> byte, a: nat, unit: nat, lane: nat): byte {
    if a % 4 <= lane < a % 4 + unit then mem(a - a % 4 + lane) else stale(a, lane)
  }

  function Word(mem: nat -> byte, stale: (nat, nat) -> byte, a: nat, unit: nat): (r: seq<byte>)
    ensures |r| == 4
  {
    [Lane(mem, stale, a, unit, 0), Lane(mem, stale, a, unit, 1),
     Lane(mem, stale, a, unit, 2), Lane(mem, stale, a, unit, 3)]
  }

  /** `adiv5_unpack_data`: the lanes an address picks. */
  function Unpack(word: seq<byte>, src: nat, unit: nat): seq<byte>
    requires |word| == 4
  {
    if unit == 1 then [word[src % 4]]
    else if unit == 2 then (if src % 4 < 2 then word[..2] else word[2..])
    else word
  }

  /** The address register suits the access, and the address that picks the lanes is in step with it. */
  predicate InStep(tar: nat, src: nat, unit: nat)
    requires IsUnit(unit)
  {
    Whole(tar, unit) && src % 4 == tar % 4
  }

  lemma {:induction false} MemUpTo4(mem: nat -> byte, a: nat)
    ensures Mem(mem, a, 1) == [mem(a)] && Mem(mem, a, 2) == [mem(a), mem(a + 1)]
    ensures Mem(mem, a, 4) == [mem(a), mem(a + 1), mem(a + 2), mem(a + 3)]
  {
    assert Mem(mem, a, 0) == [];
    assert Mem(mem, a, 1) == [mem(a)];
    assert Mem(mem, a, 2) == [mem(a), mem(a + 1)];
    assert Mem(mem, a, 3) == [mem(a), mem(a + 1), mem(a + 2)];
  }

  /** Picked from the lanes of the right address, the bytes are memory's. */
  lemma {:induction false} UnpackReads(mem: nat -> byte, stale: (nat, nat) -> byte, a: nat, src: nat, unit: nat)
    requires IsUnit(unit) && InStep(a, src, unit)
    ensures Unpack(Word(mem, stale, a, unit), src, unit) == Mem(mem, a, unit)
  {
    LanesRead(mem, stale, a, a - a % 4, a % 4, unit);
    MemUpTo4(mem, a);
  }

  lemma {:induction false} LanesRead(mem: nat -> byte, stale: (nat, nat) -> byte, a: nat, base: nat, lane: nat,
                                     unit: nat)
    requires lane == a % 4 && a == base + lane && unit <= 4
    ensures forall k | lane <= k < lane + unit && k < 4 :: Word(mem, stale, a, unit)[k] == mem(base + k)
  {
  }

  lemma {:induction false} BumpLane(t: nat, s: nat, unit: nat)
    requires IsUnit(unit) && InStep(t, s, unit)
    ensures InStep(Bump(t, unit), s + unit, unit)
  {
    LaneSum(t, unit);
    LaneSum(s, unit);
    if t % PAGE + unit >= PAGE { LaneShift(-256, t + unit); }
  }

  /** Counting up stays in step, even round the page. */
  lemma {:induction false} TarLane(tar: nat, src: nat, unit: nat, n: nat)
    requires IsUnit(unit) && InStep(tar, src, unit)
    ensures InStep(TarAfter(tar, unit, n), src + Times(n, unit), unit)
  {
    if n > 0 {
      TarLane(tar, src, unit, n - 1);
      BumpLane(TarAfter(tar, unit, n - 1), src + Times(n - 1, unit), unit);
    }
  }

  lemma {:induction false} MemThen(mem: nat -> byte, a: nat, m: nat, n: nat)
    ensures Mem(mem, a, m + n) == Mem(mem, a, m) + Mem(mem, a + m, n)
  {
    if n > 0 { MemThen(mem, a, m, n - 1); }
  }

  lemma {:induction false} MemJoins(mem: nat -> byte, a: nat, m: nat, front: seq<byte>, back: seq<byte>, n: nat)
    requires front == Mem(mem, a, m) && back == Mem(mem, a + m, |back|) && n == m + |back|
    ensures front + back == Mem(mem, a, n)
  {
    MemThen(mem, a, m, |back|);
  }

  lemma {:induction false} MemWraps(mem: nat -> byte, a: nat, n: nat)
    requires Wraps(mem)
    ensures Mem(mem, a, n) == Mem(mem, a % U32, n)
  {
    if n > 0 {
      MemWraps(mem, a, n - 1);
      ModAdd(a, n - 1);
      assert WrapsAt(mem, a + n - 1) && WrapsAt(mem, a % U32 + n - 1);
    }
  }

  lemma {:induction false} Mod32(x: nat, q: int, r: nat)
    requires x == U32 * q + r && r < U32
    ensures x % U32 == r
  {
  }

  lemma {:induction false} ModAdd(a: nat, k: nat)
    ensures (a % U32 + k) % U32 == (a + k) % U32
  {
    var y := a % U32 + k;
    Mod32(a + k, a / U32 + y / U32, y % U32);
  }

  lemma {:induction false} ModPage(x: nat, q: int, r: nat)
    requires x == PAGE * q + r && r < PAGE
    ensures x % PAGE == r
  {
  }

  /** Neither the page nor the lane of an address is changed by its wrapping to 32 bits. */
  lemma {:induction false} WrappedAddress(a: nat)
    ensures a % U32 % PAGE == a % PAGE && a % U32 % 4 == a % 4
  {
    var q, y := a / U32, a % U32;
    ModPage(a, 0x40_0000 * q + y / PAGE, y % PAGE);
    LaneShift(0x4000_0000 * q, y);
  }

  lemma {:induction false} SamePage(tar: nat, t: nat)
    requires tar % PAGE + t < PAGE
    ensures (tar + t) % PAGE == tar % PAGE + t
  {
    ModPage(tar + t, tar / PAGE, tar % PAGE + t);
  }

  lemma {:induction false} TarCounts(tar: nat, unit: nat, n: nat)
    requires 1 <= unit && tar % PAGE + Times(n, unit) < PAGE
    ensures TarAfter(tar, unit, n) == tar + Times(n, unit)
  {
    if n > 0 {
      TarCounts(tar, unit, n - 1);
      SamePage(tar, Times(n - 1, unit));
    }
  }

  /** Accesses that stay within a page read memory in order. */
  lemma {:induction false} BurstReads(mem: nat -> byte, tar: nat, unit: nat, n: nat)
    requires 1 <= unit && tar % PAGE + Times(n, unit) <= PAGE
    ensures Burst(mem, tar, unit, n) == Mem(mem, tar, Times(n, unit))
  {
    if n > 0 {
      BurstReads(mem, tar, unit, n - 1);
      TarCounts(tar, unit, n - 1);
      MemThen(mem, tar, Times(n - 1, unit), unit);
    }
  }

  lemma {:induction false} TimesAdd(m: nat, n: nat, unit: nat)
    ensures Times(m + n, unit) == Times(m, unit) + Times(n, unit)
  {
    if n > 0 { TimesAdd(m, n - 1, unit); }
  }

  lemma {:induction false} TimesGrows(n: nat, unit: nat)
    requires n > 0 && unit > 0
    ensures Times(n, unit) > 0
  {
  }

  lemma {:induction false} TimesOfUnit(n: nat, unit: nat)
    requires IsUnit(unit)
    ensures Times(n, unit) == if unit == 4 then 4 * n else if unit == 2 then 2 * n else n
  {
    if n > 0 { TimesOfUnit(n - 1, unit); }
  }

  /** Counting accesses and counting bytes undo each other. */
  lemma {:induction false} BlocksOfTimes(n: nat, unit: nat)
    requires IsUnit(unit)
    ensures Blocks(Times(n, unit), unit) == n && Whole(Times(n, unit), unit)
  {
    TimesOfUnit(n, unit);
    if unit == 4 { Mod4(4 * n, n, 0); }
    if unit == 2 {
      Mod2(2 * n, n, 0);
      LaneOfEven(2 * n);
    }
  }

  lemma {:induction false} TimesOfBlocks(c: nat, unit: nat)
    requires IsUnit(unit) && Whole(c, unit)
    ensures Times(Blocks(c, unit), unit) == c
  {
    TimesOfUnit(Blocks(c, unit), unit);
    if unit == 2 { LaneOfEven(c); }
  }

  lemma {:induction false} BlocksAdd(a: nat, b: nat, unit: nat)
    requires IsUnit(unit) && Whole(a, unit) && Whole(b, unit)
    ensures Blocks(a + b, unit) == Blocks(a, unit) + Blocks(b, unit)
  {
    var m, n := Blocks(a, unit), Blocks(b, unit);
    TimesOfBlocks(a, unit);
    TimesOfBlocks(b, unit);
    TimesAdd(m, n, unit);
    BlocksOfTimes(m + n, unit);
  }

  // ----- the tiling ----------------------------------------------------------------------------------------

  /** What is left of the page, or of the read. */
  function Remaining(src: nat, offset: nat, len: nat): nat
    requires offset <= len
  {
    Min(PAGE - (src + offset) % PAGE, len - offset)
  }

  lemma {:induction false} WholePage(a: nat, u: nat)
    requires IsUnit(u) && Whole(a, u)
    ensures Whole(PAGE - a % PAGE, u)
  {
    LaneShift(256 * (a / PAGE), a % PAGE);
    LaneShift(256, 0);
    WholeRest(PAGE, a % PAGE, u);
  }

  /** A piece of the read, of whole accesses, and ending at one. */
  predicate Tile(offset: nat, len: nat, c: nat, unit: nat)
    requires IsUnit(unit)
  {
    0 < c <= len - offset && Whole(c, unit) && Whole(offset + c, unit)
  }

  /** It is a whole number of accesses, and they stay within the page. */
  lemma {:induction false} ChunkWhole(src: nat, offset: nat, len: nat, unit: nat)
    requires IsUnit(unit) && Whole(src, unit) && Whole(len, unit) && Whole(offset, unit) && offset < len
    ensures var c := Remaining(src, offset, len);
            && Tile(offset, len, c, unit) && Times(Blocks(c, unit), unit) == c && Blocks(c, unit) > 0
            && (src + offset) % PAGE + c <= PAGE
    ensures InStep((src + offset) % U32, src + offset, unit)
  {
    var c := Remaining(src, offset, len);
    WholeSum(src, offset, unit);
    WholePage(src + offset, unit);
    WholeRest(len, offset, unit);
    WholeSum(offset, c, unit);
    WrappedAddress(src + offset);
    TimesOfBlocks(c, unit);
  }

  /** The counter of the inner loop after `k` turns of `most` blocks each. */
  function Turns(i: nat, blocks: nat, most: nat, k: nat): nat {
    if k == 0 then i
    else
      var j := Turns(i, blocks, most, k - 1);
      if j < blocks then j + most else j
  }

  ghost predicate LoopEnds(i: nat, blocks: nat, most: nat) { exists k: nat :: Turns(i, blocks, most, k) >= blocks }

  /** The loop ends if and only if at least one block fits a transfer. */
  lemma {:induction false} LoopEndsIff(i: nat, blocks: nat, most: nat)
    requires i < blocks
    ensures LoopEnds(i, blocks, most) <==> most > 0
  {
    if most > 0 {
      TurnsGrow(i, blocks, most, blocks);
    } else {
      forall k: nat ensures Turns(i, blocks, most, k) == i { TurnsStuck(i, blocks, k); }
    }
  }

  lemma {:induction false} TurnsGrow(i: nat, blocks: nat, most: nat, k: nat)
    requires most > 0
    ensures Turns(i, blocks, most, k) >= Min(blocks, i + k)
  {
    if k > 0 { TurnsGrow(i, blocks, most, k - 1); }
  }

  lemma {:induction false} TurnsStuck(i: nat, blocks: nat, k: nat)
    ensures Turns(i, blocks, 0, k) == i
  {
    if k > 0 { TurnsStuck(i, blocks, k - 1); }
  }

  /** The read of one page, from register value `a` and address `src`: `i` blocks of it asked for in `k`
      turns, and `x` bytes in. */
  datatype Page = Page(mem: nat -> byte, a: nat, src: nat, unit: nat, blocks: nat, most: nat)

  predicate Sound(p: Page) {
    IsUnit(p.unit) && InStep(p.a, p.src, p.unit) && p.a % PAGE + Times(p.blocks, p.unit) <= PAGE
  }

  predicate Progress(p: Page, now: nat, i: nat, x: nat, data: seq<byte>, k: nat) {
    && i == Turns(0, p.blocks, p.most, k) && data == Mem(p.mem, p.a, x)
    && if i < p.blocks then x == Times(i, p.unit) && now == p.a + x else x == Times(p.blocks, p.unit)
  }

  lemma {:induction false} ProgressBounds(p: Page, now: nat, i: nat, x: nat, data: seq<byte>, k: nat)
    requires Sound(p) && Progress(p, now, i, x, data, k) && i < p.blocks
    ensures x < Times(p.blocks, p.unit) && InStep(now, p.src + x, p.unit)
  {
    TimesAdd(i, p.blocks - i, p.unit);
    TimesGrows(p.blocks - i, p.unit);
    LaneSum(p.a, x);
    LaneSum(p.src, x);
    BlocksOfTimes(i, p.unit);
    WholeSum(p.a, x, p.unit);
  }

  lemma {:induction false} ProgressStep(p: Page, now: nat, i: nat, x: nat, data: seq<byte>, k: nat, n: nat)
    requires Sound(p) && Progress(p, now, i, x, data, k) && i < p.blocks && n == Min(p.blocks - i, p.most)
    ensures Progress(p, TarAfter(now, p.unit, n), i + p.most, x + Times(n, p.unit),
                     data + Burst(p.mem, now, p.unit, n), k + 1)
  {
    var y := Times(n, p.unit);
    PieceSize(i, n, p.blocks, p.unit);
    PieceRead(p.mem, p.a, x, now, data, p.unit, n, y);
    NextTurn(p.blocks, p.most, k);
    assert if i + p.most < p.blocks then n == p.most else i + n == p.blocks;
  }

  lemma {:induction false} NextTurn(blocks: nat, most: nat, k: nat)
    requires Turns(0, blocks, most, k) < blocks
    ensures Turns(0, blocks, most, k + 1) == Turns(0, blocks, most, k) + most
  {
  }

  lemma {:induction false} PieceSize(i: nat, n: nat, blocks: nat, unit: nat)
    requires i < blocks && i + n <= blocks && unit > 0
    ensures Times(i + n, unit) == Times(i, unit) + Times(n, unit) <= Times(blocks, unit)
    ensures Times(i, unit) < Times(blocks, unit)
    ensures i + n < blocks ==> Times(i + n, unit) < Times(blocks, unit)
  {
    TimesAdd(i, n, unit);
    TimesAdd(i, blocks - i, unit);
    TimesGrows(blocks - i, unit);
    TimesAdd(i + n, blocks - i - n, unit);
    if i + n < blocks { TimesGrows(blocks - i - n, unit); }
  }

  lemma {:induction false} PieceRead(mem: nat -> byte, a: nat, x: nat, now: nat, data: seq<byte>, unit: nat, n: nat,
                                     y: nat)
    requires now == a + x && data == Mem(mem, a, x)
    requires 1 <= unit && y == Times(n, unit) && a % PAGE + x + y <= PAGE && a % PAGE + x < PAGE
    ensures data + Burst(mem, now, unit, n) == Mem(mem, a, x + y)
    ensures a % PAGE + x + y < PAGE ==> TarAfter(now, unit, n) == a + (x + y)
  {
    SamePage(a, x);
    BurstReads(mem, now, unit, n);
    MemThen(mem, a, x, y);
    if a % PAGE + x + y < PAGE { TarCounts(now, unit, n); }
  }
}
