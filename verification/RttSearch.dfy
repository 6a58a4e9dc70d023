/** Finding the RTT control block: a Rabin-Karp search for the 16-byte identifier, reading
    target memory in strides of 128 bytes and carrying the last 16 bytes across. */
module RttSearch {
  import opened Common

  const M: nat := 16
  const STRIDE: nat := 128
  const P: nat := 0x444110cd
  const Q: nat := 0x797a9691
  const R: nat := 0x73b07d01

  // ----- the hash -----------------------------------------------------------------------

  /** Base-256 value of a byte string, most significant byte first. */
  function Value(w: seq<byte>): nat {
    if w == [] then 0 else Value(w[..|w| - 1]) * 256 + w[|w| - 1]
  }

  function Hash(w: seq<byte>): nat { Value(w) % Q }

  /** The update of the inner loop: take the oldest byte out, shift, bring the newest in. */
  function Roll(t: nat, out: byte, next: byte): nat {
    var t1 := (t + Q - R * out % Q) % Q;
    (t1 * 256 + next) % Q
  }

  function Pow256(n: nat): nat { if n == 0 then 1 else 256 * Pow256(n - 1) }

  lemma {:induction false} ValueFront(w: seq<byte>)
    requires w != []
    ensures Value(w) == w[0] * Pow256(|w| - 1) + Value(w[1..])
  {
    if |w| > 1 {
      var n := |w| - 1;
      ValueFront(w[..n]);
      assert w[..n][1..] == w[1..][..n - 1];
      assert Pow256(n) == 256 * Pow256(n - 1);
      assert w[0] * Pow256(n) == w[0] * Pow256(n - 1) * 256;
    }
  }

  /** R is the weight of the oldest of 16 bytes. */
  lemma {:induction false} WeightOfOldest()
    ensures Pow256(15) == 0x1_000000000000000000000000000000
    ensures Pow256(15) == Q * (0x1_000000000000000000000000000000 / Q) + R
  {
    assert Pow256(3) == 0x1_000000;
    assert Pow256(6) == 0x1_000000_000000;
    assert Pow256(9) == 0x1_000000_000000_000000;
    assert Pow256(12) == 0x1_000000_000000_000000_000000;
  }

  lemma {:induction false} ModUnique(x: int, k: int, r: nat)
    requires x == Q * k + r && r < Q
    ensures x % Q == r
  {
  }

  /** The rolled hash is the hash of the window moved on by one byte. */
  lemma {:induction false} RollIsHash(w: seq<byte>, next: byte)
    requires |w| == M
    ensures Roll(Hash(w), w[0], next) == Hash(w[1..] + [next])
  {
    ValueFront(w);
    WeightOfOldest();
    var rest := Value(w[1..]);
    assert (w[1..] + [next])[..M - 1] == w[1..];
    assert Value(w[1..] + [next]) == rest * 256 + next;
    var t1 := (Hash(w) + Q - R * w[0] % Q) % Q;
    RemoveOldest(Value(w), rest, w[0]);
    assert t1 == rest % Q;
    ShiftIn(rest, next);
  }

  lemma {:induction false} RemoveOldest(v: nat, rest: nat, out: byte)
    requires v == out * Pow256(15) + rest
    ensures (v % Q + Q - R * out % Q) % Q == rest % Q
  {
    WeightOfOldest();
    var k := 0x1_000000000000000000000000000000 / Q;
    assert out * Pow256(15) == Q * (k * out) + R * out;
    var x := v % Q + Q - R * out % Q;
    ModUnique(x, (rest / Q) + (k * out) + 1 + (R * out / Q) - v / Q, rest % Q);
  }

  lemma {:induction false} ShiftIn(rest: nat, next: byte)
    ensures (rest % Q * 256 + next) % Q == (rest * 256 + next) % Q
  {
    var x := rest * 256 + next;
    ModUnique(rest % Q * 256 + next, x / Q - 256 * (rest / Q), x % Q);
  }

  /** Every intermediate value of the update fits 64 bits. */
  lemma {:induction false} RollFits(t: nat, out: byte, next: byte)
    requires t < Q
    ensures R * out < U64 && t + Q < U64
    ensures (t + Q - R * out % Q) % Q * 256 + next < U64
    ensures Roll(t, out, next) < Q
  {
  }

  // ----- windows ------------------------------------------------------------------------

  /** Memory as the search buffer sees it: zero before the start of the range. */
  function PadAt(ram: seq<byte>, p: int): byte {
    if 0 <= p < |ram| then ram[p] else 0
  }

  /** The 16 bytes that end with byte `k` of the range. */
  function Window(ram: seq<byte>, k: int): (w: seq<byte>)
    ensures |w| == M && forall j | 0 <= j < M :: w[j] == PadAt(ram, k - (M - 1) + j)
  {
    seq<byte>(M, j => PadAt(ram, k - (M - 1) + j))
  }

  /** For each byte of the range, the hash of the window that ends there. */
  function Hashes(ram: seq<byte>): (hs: seq<nat>)
    ensures |hs| == |ram|
  {
    seq(|ram|, k requires 0 <= k < |ram| => Hash(Window(ram, k)))
  }

  /** `k` is the end of the first window that hashes to P. */
  ghost predicate FirstMatch(hs: seq<nat>, k: int) {
    0 <= k < |hs| && hs[k] == P && forall j | 0 <= j < k :: hs[j] != P
  }

  const IDENT: seq<byte> := [83, 69, 71, 71, 69, 82, 32, 82, 84, 84, 0, 0, 0, 0, 0, 0]  // "SEGGER RTT"

  lemma {:induction false} HashOfIdent()
    ensures Hash(IDENT) == P
  {
    ValueOf4(83, 69, 71, 71);
    var a: seq<byte> := [83, 69, 71, 71];
    var b := a + [69, 82, 32, 82];
    Extend4(a, 69, 82, 32, 82);
    Extend4(b, 84, 84, 0, 0);
    Extend4(b + [84, 84, 0, 0], 0, 0, 0, 0);
    assert IDENT == b + [84, 84, 0, 0] + [0, 0, 0, 0];
  }

  lemma {:induction false} ValueOf4(a: byte, b: byte, c: byte, d: byte)
    ensures Value([a, b, c, d]) == ((a * 256 + b) * 256 + c) * 256 + d
  {
    Extend4([], a, b, c, d);
    assert [] + [a, b, c, d] == [a, b, c, d];
  }

  lemma {:induction false} Snoc(w: seq<byte>, a: byte)
    ensures Value(w + [a]) == Value(w) * 256 + a
  {
    assert (w + [a])[..|w|] == w;
  }

  lemma {:induction false} Extend4(w: seq<byte>, a: byte, b: byte, c: byte, d: byte)
    ensures Value(w + [a, b, c, d]) == (((Value(w) * 256 + a) * 256 + b) * 256 + c) * 256 + d
  {
    Snoc(w, a);
    Snoc(w + [a], b);
    Snoc(w + [a] + [b], c);
    Snoc(w + [a] + [b] + [c], d);
    assert w + [a, b, c, d] == w + [a] + [b] + [c] + [d];
  }

  lemma {:induction false} WindowRolls(ram: seq<byte>, k: int)
    requires 0 <= k < |ram|
    ensures Window(ram, k) == Window(ram, k - 1)[1..] + [ram[k]]
  {
    var w, v := Window(ram, k - 1), Window(ram, k);
    forall j | 0 <= j < M ensures v[j] == (w[1..] + [ram[k]])[j] {
      if j < M - 1 { assert w[j + 1] == PadAt(ram, k - 1 - (M - 1) + (j + 1)); }
    }
  }

  /** `hs` is what the inner loop computes, step by step from 0. */
  ghost predicate Rolled(hs: seq<nat>, ram: seq<byte>) {
    && |hs| == |ram|
    && forall k | 0 <= k < |ram| :: hs[k] == Roll(if k == 0 then 0 else hs[k - 1], PadAt(ram, k - M), ram[k])
  }

  /** The rolling value is the polynomial hash of the last 16 bytes at every step of the scan. */
  lemma {:induction false} HashesRoll(ram: seq<byte>)
    ensures Rolled(Hashes(ram), ram)
  {
    forall k | 0 <= k < |ram|
      ensures Hashes(ram)[k] == Roll(if k == 0 then 0 else Hashes(ram)[k - 1], PadAt(ram, k - M), ram[k])
    {
      var w := Window(ram, k - 1);
      if k == 0 { ValueZero(w); }
      WindowRolls(ram, k);
      RollIsHash(w, ram[k]);
    }
  }

  lemma {:induction false} ValueZero(w: seq<byte>)
    requires forall j | 0 <= j < |w| :: w[j] == 0
    ensures Value(w) == 0
  {
    if w != [] { ValueZero(w[..|w| - 1]); }
  }

  /** A true identifier inside the range makes its window match, so the first match never
      lies past it. */
  lemma {:induction false} IdentifierNotPassed(ram: seq<byte>, j: nat)
    requires j + M <= |ram| && ram[j..j + M] == IDENT
    ensures Hashes(ram)[j + M - 1] == P
    ensures forall k | FirstMatch(Hashes(ram), k) :: k - (M - 1) <= j
  {
    HashOfIdent();
    assert Window(ram, j + M - 1) == ram[j..j + M];
    MatchNotPassed(Hashes(ram), j + M - 1);
  }

  lemma {:induction false} MatchNotPassed(hs: seq<nat>, i: nat)
    requires i < |hs| && hs[i] == P
    ensures forall k | FirstMatch(hs, k) :: k <= i
  {
  }

  // ----- the search ----------------------------------------------------------------------

  function Strides(len: nat): nat { (len + STRIDE - 1) / STRIDE }

  /** The 32-bit stride address gets past the end of the range without wrapping. */
  predicate Exits(start: nat, end: nat)
    requires start <= end
  {
    start + Strides(end - start) * STRIDE < U32
  }

  /** Exactly then does the outer loop stop: otherwise every stride address, wrapped to 32 bits,
      stays below the end of the range. */
  lemma {:induction false} ExitsIff(start: nat, end: nat)
    requires start <= end < U32
    ensures Exits(start, end) <==> exists n: nat :: StrideAddr(start, n) >= end
  {
    var s := Strides(end - start);
    if Exits(start, end) {
      assert StrideAddr(start, s) >= end;
    } else {
      forall n: nat ensures StrideAddr(start, n) < end { NeverExits(start, end, n); }
    }
  }

  function StrideAddr(start: nat, n: nat): nat { (start + STRIDE * n) % U32 }

  lemma {:induction false} NeverExits(start: nat, end: nat, n: nat)
    requires start <= end < U32 && !Exits(start, end)
    ensures StrideAddr(start, n) < end
  {
    var a := StrideAddr(start, n);
    var turns := (start + STRIDE * n) / U32;
    assert a == start + STRIDE * (n - 0x200_0000 * turns);
    if a >= end {
      StrideBound(end - start, n - 0x200_0000 * turns);
    }
  }

  lemma {:induction false} StrideBound(len: nat, m: int)
    requires STRIDE * m >= len
    ensures Strides(len) <= m
  {
  }

  /** A range of 240 bytes at the top of memory: the stride addresses wrap past its end for ever. */
  lemma {:induction false} TopRangeNeverExits()
    ensures !Exits(0xffff_ff00, 0xffff_fff0) && forall n: nat :: StrideAddr(0xffff_ff00, n) < 0xffff_fff0
  {
    ExitsIff(0xffff_ff00, 0xffff_fff0);
  }

  /** Going through the range once ends the search: past its end, at a match, or at a failed read. */
  ghost predicate Ends(start: nat, ram: seq<byte>, readOk: nat -> bool) {
    Exits(start, start + |ram|) || P in Hashes(ram) || SomeFails(readOk, Strides(|ram|))
  }

  ghost predicate SomeFails(readOk: nat -> bool, n: nat) { exists s: nat :: s < n && !readOk(s) }

  /** `fast_search`. `ram` is what the target holds from `start` up to `end`; `readOk` says which stride
      reads succeed. `hit` is the last byte of the window found, or -1: it is found if and only if no read
      fails before it. The caller sees only the address, and takes 0 for no match. Where going through the
      range once does not end the search, the stride address wraps, and what is then found at the bottom of
      memory is not said. */
  method FastSearch(start: nat, end: nat, ram: seq<byte>, readOk: nat -> bool)
    returns (addr: nat, hit: int, wrapped: bool)
    requires start < U32 && end < U32 && |ram| == if start < end then end - start else 0
    ensures hit >= 0 ==> FirstMatch(Hashes(ram), hit) && addr == (start + hit - M + 1) % U32
    ensures hit < 0 && !wrapped ==> addr == 0 && (P !in Hashes(ram) || SomeFails(readOk, Strides(|ram|)))
    ensures wrapped <==> !Ends(start, ram, readOk)
    ensures addr != 0 <==> hit >= 0 && (start + hit - M + 1) % U32 != 0
    ensures hit >= 0 <==> Readable(Hashes(ram), readOk)
  {
    HashesRoll(ram);
    addr, hit, wrapped := SearchStrides(start, end, ram, readOk, Hashes(ram));
  }

  /** The first match lies in a stride that is read, and so are all before it. */
  ghost predicate Readable(hs: seq<nat>, readOk: nat -> bool) {
    exists k: nat :: FirstMatch(hs, k) && AllRead(readOk, k / STRIDE + 1)
  }

  lemma {:induction false} StrideOf(n: nat, m: nat)
    requires m < STRIDE
    ensures (n * STRIDE + m) / STRIDE == n
  {
  }

  lemma {:induction false} NotReadable(hs: seq<nat>, readOk: nat -> bool, n: nat)
    requires Missed(hs, n * STRIDE) && !readOk(n)
    ensures !Readable(hs, readOk)
  {
    forall k: nat | FirstMatch(hs, k) ensures !AllRead(readOk, k / STRIDE + 1) { StrideFrom(n, k); }
  }

  lemma {:induction false} StrideFrom(n: nat, k: nat)
    requires k >= n * STRIDE
    ensures k / STRIDE >= n
  {
  }

  /** The outer loop. */
  method SearchStrides(start: nat, end: nat, ram: seq<byte>, readOk: nat -> bool, ghost hs: seq<nat>)
    returns (addr: nat, hit: int, wrapped: bool)
    requires start < U32 && end < U32 && |ram| == if start < end then end - start else 0
    requires Rolled(hs, ram)
    ensures hit >= 0 ==> FirstMatch(hs, hit) && addr == (start + hit - M + 1) % U32
    ensures hit < 0 ==> addr == 0 && (P !in hs || SomeFails(readOk, Strides(|ram|)))
    ensures wrapped <==> !(Exits(start, start + |ram|) || P in hs || SomeFails(readOk, Strides(|ram|)))
    ensures wrapped ==> hit < 0
    ensures hit >= 0 <==> Readable(hs, readOk)
  {
    var buf := new byte[M + STRIDE](_ => 0);
    var t := 0;
    addr := start;
    ghost var n := 0;      // strides behind us
    while addr < end
      invariant n <= Strides(|ram|) && addr == start + n * STRIDE < U32
      invariant addr < end ==> Carried(ram, hs, buf[..], t, n * STRIDE)
      invariant Missed(hs, n * STRIDE) && AllRead(readOk, n)
      decreases end - addr
    {
      StrideIndex(|ram|, n);
      if !readOk((addr - start) / STRIDE) {
        NotReadable(hs, readOk, n);
        return 0, -1, false;
      }
      var m, found;
      t, m, found := SearchStride(buf, t, ram, addr - start, hs);
      if found {
        StrideOf(n, m);
        return (addr + m - M + 1) % U32, addr - start + m, false;
      }
      LastStride(hs, readOk, |ram|, n);
      if addr + STRIDE >= U32 {
        return 0, -1, true;
      }
      addr := addr + STRIDE;
      n := n + 1;
    }
    return 0, -1, false;
  }

  /** The identifier at address 0 is found, and the caller told of no match. */
  lemma {:induction false} MatchAtZero()
    ensures FirstMatch(Hashes(IDENT), 15) && (0 + 15 - M + 1) % U32 == 0
  {
    var hs := Hashes(IDENT);
    HashesRoll(IDENT);
    forall k: nat | k < M ensures StepAt(hs, IDENT, k) {
      RollFirst(if k == 0 then 0 else hs[k - 1], IDENT[k]);
    }
    IdentHashes(hs, IDENT);
  }

  /** While the window is not yet full nothing is taken out of it. */
  function Shifted(t: nat, next: byte): nat { (t * 256 + next) % Q }

  predicate StepAt(hs: seq<nat>, w: seq<byte>, k: nat)
    requires k < |hs| && k < |w|
  {
    hs[k] == Shifted(if k == 0 then 0 else hs[k - 1], w[k])
  }

  lemma {:induction false} RollFirst(t: nat, next: byte)
    requires t < Q
    ensures Roll(t, 0, next) == Shifted(t, next)
  {
    ModUnique(t + Q, 1, t);
  }

  lemma {:induction false} IdentHashes(hs: seq<nat>, w: seq<byte>)
    requires w == IDENT && |hs| == M && forall k: nat | k < M :: StepAt(hs, w, k)
    ensures FirstMatch(hs, 15)
  {
    FirstThird(hs, w);
    SecondThird(hs, w);
    LastThird(hs, w);
  }

  lemma {:induction false} FirstThird(hs: seq<nat>, w: seq<byte>)
    requires w == IDENT && |hs| == M && forall k: nat | k < 5 :: StepAt(hs, w, k)
    ensures hs[4] == 0x3a7a5a26 && forall k | 0 <= k < 5 :: hs[k] != P
  {
    Next(hs, w, 0, 0, 83, 0, 0x53);
    Next(hs, w, 1, 0x53, 69, 0, 0x5345);
    Next(hs, w, 2, 0x5345, 71, 0, 0x534547);
    Next(hs, w, 3, 0x534547, 71, 0, 0x53454747);
    Next(hs, w, 4, 0x53454747, 69, 175, 0x3a7a5a26);
  }

  lemma {:induction false} SecondThird(hs: seq<nat>, w: seq<byte>)
    requires w == IDENT && |hs| == M && hs[4] == 0x3a7a5a26 && forall k: nat | 5 <= k < 10 :: StepAt(hs, w, k)
    ensures hs[9] == 0x71963863 && forall k | 5 <= k < 10 :: hs[k] != P
  {
    Next(hs, w, 5, 0x3a7a5a26, 82, 123, 0x1c73cea7);
    Next(hs, w, 6, 0x1c73cea7, 32, 59, 0x748df3b5);
    Next(hs, w, 7, 0x748df3b5, 82, 245, 0x4ba19c8d);
    Next(hs, w, 8, 0x4ba19c8d, 84, 159, 0x2e790945);
    Next(hs, w, 9, 0x2e790945, 84, 97, 0x71963863);
  }

  lemma {:induction false} LastThird(hs: seq<nat>, w: seq<byte>)
    requires w == IDENT && |hs| == M && hs[9] == 0x71963863 && forall k: nat | 10 <= k < M :: StepAt(hs, w, k)
    ensures hs[15] == P && forall k | 10 <= k < 15 :: hs[k] != P
  {
    Next(hs, w, 10, 0x71963863, 0, 239, 0x2cc5d1a1);
    Next(hs, w, 11, 0x2cc5d1a1, 0, 94, 0x2ace57c2);
    Next(hs, w, 12, 0x2ace57c2, 0, 90, 0x193ed306);
    Next(hs, w, 13, 0x193ed306, 0, 53, 0x1871d9fb);
    Next(hs, w, 14, 0x1871d9fb, 0, 51, 0x3e6dfc1d);
    Next(hs, w, 15, 0x3e6dfc1d, 0, 131, P);
  }

  lemma {:induction false} Next(hs: seq<nat>, w: seq<byte>, k: nat, t: nat, next: byte, q: nat, r: nat)
    requires k < |hs| && k < |w| && StepAt(hs, w, k) && w[k] == next && t == if k == 0 then 0 else hs[k - 1]
    requires t * 256 + next == Q * q + r && r < Q
    ensures hs[k] == r
  {
    ModUnique(t * 256 + next, q, r);
  }

  /** One turn of it, once its read has succeeded. */
  method SearchStride(buf: array<byte>, t0: nat, ram: seq<byte>, from: nat, ghost hs: seq<nat>)
    returns (t: nat, m: nat, found: bool)
    requires Rolled(hs, ram) && from < |ram| && Carried(ram, hs, buf[..], t0, from) && Missed(hs, from)
    modifies buf
    ensures found ==> m < STRIDE && FirstMatch(hs, from + m)
    ensures !found ==> Missed(hs, from + STRIDE)
    ensures !found && from + STRIDE <= |ram| ==> Carried(ram, hs, buf[..], t, from + STRIDE)
  {
    var size := if |ram| - from < STRIDE then |ram| - from else STRIDE;
    CarryOver(buf);
    t, m := OneStride(buf, t0, ram, from, size, hs);
    found := m < size;
    MissedMore(hs, from, from + m, if found then from + m else from + STRIDE);
  }

  ghost predicate Missed(hs: seq<nat>, upto: nat) { forall k | 0 <= k < upto && k < |hs| :: hs[k] != P }

  lemma {:induction false} MissedMore(hs: seq<nat>, a: nat, b: nat, c: nat)
    requires Missed(hs, a) && a <= b <= |hs| && (b == c || (b == |hs| && b <= c))
    requires forall k | a <= k < b :: hs[k] != P
    ensures Missed(hs, c)
  {
  }

  ghost predicate AllRead(readOk: nat -> bool, n: nat) { forall s: nat | s < n :: readOk(s) }

  /** The hash and the last bytes of the buffer are those of the range up to `from`. */
  ghost predicate Carried(ram: seq<byte>, hs: seq<nat>, buf: seq<byte>, t: nat, from: nat)
    requires |hs| == |ram|
  {
    from <= |ram| && |buf| == M + STRIDE && t == Before(hs, from) && Mirrors(buf[STRIDE..], ram, from - M)
  }

  /** Read one stride and roll through it. */
  method OneStride(buf: array<byte>, t0: nat, ram: seq<byte>, from: nat, size: nat, ghost hs: seq<nat>)
    returns (t: nat, m: nat)
    requires buf.Length == M + STRIDE && size <= STRIDE && from + size <= |ram|
    requires Mirrors(buf[..M], ram, from - M) && Rolled(hs, ram) && t0 == Before(hs, from)
    modifies buf
    ensures m <= size && forall k | from <= k < from + m :: hs[k] != P
    ensures m < size ==> hs[from + m] == P
    ensures m == size ==> t == Before(hs, from + size)
    ensures size == STRIDE ==> Mirrors(buf[STRIDE..], ram, from + STRIDE - M)
  {
    ReadStride(buf, ram, from, size);
    if size == STRIDE { MirrorsEnd(buf[..], buf[..M + size], buf[STRIDE..], ram, from - M); }
    t, m := ScanStride(buf, t0, ram, from, size, hs);
  }

  lemma {:induction false} StrideIndex(len: nat, n: nat)
    requires n * STRIDE < len
    ensures n + 1 <= Strides(len) && n * STRIDE / STRIDE == n
  {
    assert n < Strides(len);
  }

  /** After the last stride the whole range has been read and nothing matched. */
  lemma {:induction false} LastStride(hs: seq<nat>, readOk: nat -> bool, len: nat, n: nat)
    requires len == |hs| && n * STRIDE < len && AllRead(readOk, n + 1) && Missed(hs, (n + 1) * STRIDE)
    ensures (n + 1) * STRIDE >= len ==> P !in hs && !SomeFails(readOk, Strides(len))
  {
    if (n + 1) * STRIDE >= len {
      StrideBound(len, n + 1);
      assert P !in hs;
    }
  }

  lemma {:induction false} MirrorsEnd(all: seq<byte>, s: seq<byte>, end: seq<byte>, ram: seq<byte>, from: int)
    requires |all| == M + STRIDE && s == all[..M + STRIDE] && end == all[STRIDE..] && Mirrors(s, ram, from)
    ensures Mirrors(end, ram, from + STRIDE)
  {
    forall j | 0 <= j < M ensures end[j] == PadAt(ram, from + STRIDE + j) { assert end[j] == s[STRIDE + j]; }
  }

  /** Hash value carried into byte `k` of the range. */
  ghost function Before(hs: seq<nat>, k: nat): nat
    requires k <= |hs|
  {
    if k == 0 then 0 else hs[k - 1]
  }

  /** `s` is a piece of (zero-padded) memory starting at `from`. */
  ghost predicate Mirrors(s: seq<byte>, ram: seq<byte>, from: int) {
    forall j | 0 <= j < |s| :: s[j] == PadAt(ram, from + j)
  }

  method CarryOver(buf: array<byte>)
    requires buf.Length == M + STRIDE
    modifies buf
    ensures buf[..M] == old(buf[STRIDE..])
  {
    for i := 0 to M
      invariant forall j | 0 <= j < i :: buf[j] == old(buf[STRIDE + j])
      invariant forall j | i <= j < M + STRIDE :: buf[j] == old(buf[j])
    {
      buf[i] := buf[STRIDE + i];
    }
  }

  method ReadStride(buf: array<byte>, ram: seq<byte>, from: nat, size: nat)
    requires buf.Length == M + STRIDE && size <= STRIDE && from + size <= |ram|
    requires Mirrors(buf[..M], ram, from - M)
    modifies buf
    ensures Mirrors(buf[..M + size], ram, from - M)
  {
    for i := 0 to size
      invariant Mirrors(buf[..M + i], ram, from - M)
    {
      buf[M + i] := ram[from + i];
    }
  }

  /** The inner loop: roll through one stride, stopping at the first match. */
  method ScanStride(buf: array<byte>, t0: nat, ram: seq<byte>, from: nat, size: nat, ghost hs: seq<nat>)
    returns (t: nat, m: nat)
    requires buf.Length == M + STRIDE && size <= STRIDE && from + size <= |ram|
    requires Mirrors(buf[..M + size], ram, from - M) && Rolled(hs, ram) && t0 == Before(hs, from)
    ensures m <= size && forall k | from <= k < from + m :: hs[k] != P
    ensures m < size ==> hs[from + m] == P
    ensures m == size ==> t == Before(hs, from + size)
  {
    t := t0;
    for i := 0 to size
      invariant t == Before(hs, from + i)
      invariant forall k | from <= k < from + i :: hs[k] != P
    {
      assert buf[i] == buf[..M + size][i] == PadAt(ram, from + i - M);
      assert buf[M + i] == buf[..M + size][M + i] == ram[from + i];
      ghost var before := t;
      t := (t + Q - R * buf[i] % Q) % Q;
      t := (t * 256 + buf[M + i]) % Q;
      assert t == Roll(before, PadAt(ram, from + i - M), ram[from + i]) == hs[from + i];
      if P == t {
        return t, i;
      }
    }
    m := size;
  }
}
