/** Hexadecimal codecs: digits, buffers, and the numbers of the remote-control protocol. */
module Hex {
  import opened Common
  import opened BitStreams

  /** `hex_digit`, in 8-bit arithmetic. */
  function HexDigit(v: byte): byte {
    ((if v > 9 then v + (0x41 - 0x30 - 10) else v) + 0x30) % 256
  }

  /** `unhex_digit`: total, in 8-bit arithmetic; upper and lower case are folded by two
      subtractions. */
  function UnhexDigit(c: byte): byte {
    var a := (c - 0x30) % 256;
    var b := if a > 9 then (a - (0x41 - 0x30 - 10)) % 256 else a;
    if b > 16 then (b - (0x61 - 0x41)) % 256 else b
  }

  /** Bitwise or. */
  function Or(a: nat, b: nat): (r: nat)
    decreases a + b
  {
    if a == 0 then b
    else if b == 0 then a
    else 2 * Or(a / 2, b / 2) + (if a % 2 == 1 || b % 2 == 1 then 1 else 0)
  }

  predicate IsUpperHex(c: byte) { 0x30 <= c <= 0x39 || 0x41 <= c <= 0x46 }

  predicate IsLowerHex(c: byte) { 0x61 <= c <= 0x66 }

  lemma {:induction false} DigitRoundTrip(v: byte)
    requires v < 16
    ensures UnhexDigit(HexDigit(v)) == v && IsUpperHex(HexDigit(v))
  {
    HexIs(v);
    UnhexIs(HexDigit(v));
  }

  /** The inverse direction, on every digit a peer may send; letters in either case. */
  lemma {:induction false} DigitDecodes(c: byte)
    requires IsUpperHex(c) || IsLowerHex(c)
    ensures UnhexDigit(c) < 16
    ensures HexDigit(UnhexDigit(c)) == if IsLowerHex(c) then c - 0x20 else c
  {
    UnhexIs(c);
    HexIs(UnhexDigit(c));
  }

  lemma {:induction false} HexIs(v: byte)
    requires v < 16
    ensures HexDigit(v) == if v <= 9 then v + 0x30 else v + 0x37
  {
  }

  lemma {:induction false} UnhexIs(c: byte)
    requires IsUpperHex(c) || IsLowerHex(c)
    ensures UnhexDigit(c) == if c <= 0x39 then c - 0x30 else if c <= 0x46 then c - 0x37 else c - 0x57
  {
    var a := c - 0x30;
    assert a % 256 == a;
    if a > 9 {
      assert (a - 7) % 256 == a - 7;
      if a - 7 > 16 { assert (a - 7 - 0x20) % 256 == a - 7 - 0x20; }
    }
  }

  /** What becomes of every other character. */
  lemma {:induction false} UnhexOfAny(c: byte)
    ensures UnhexDigit(c)
         == if c < 0x30 then c + 0xa9 else if c <= 0x39 then c - 0x30 else if c <= 0x47 then c - 0x37
            else if c <= 0x56 then c + 0xa9 else c - 0x57
  {
    var a := if c < 0x30 then c - 0x30 + 256 else c - 0x30;
    Low256(c - 0x30, a);
    var b := if a > 9 then a - 7 else a;
    if a > 9 { Low256(a - 7, a - 7); }
    if b > 16 { Low256(b - 0x20, if b < 0x20 then b - 0x20 + 256 else b - 0x20); }
  }

  lemma {:induction false} Low256(x: int, r: int)
    requires 0 <= r < 256 && (x == r || x == r - 256)
    ensures x % 256 == r
  {
  }

  /** The bits of an or. */
  lemma {:induction false} OrBits(a: nat, b: nat, i: nat)
    ensures Bit(Or(a, b), i) == (Bit(a, i) || Bit(b, i))
    decreases i
  {
    if a == 0 || b == 0 {
      BitOfZero(i);
    } else {
      OrParity(a, b);
      if i > 0 { OrBits(a / 2, b / 2, i - 1); }
    }
  }

  lemma {:induction false} OrParity(a: nat, b: nat)
    requires a > 0 && b > 0
    ensures Or(a, b) / 2 == Or(a / 2, b / 2) && (Or(a, b) % 2 == 1 <==> a % 2 == 1 || b % 2 == 1)
  {
    var h, l := Or(a / 2, b / 2), if a % 2 == 1 || b % 2 == 1 then 1 else 0;
    assert Or(a, b) == 2 * h + l;
  }

  lemma {:induction false} OrHalves(a: nat, d: nat)
    ensures Or(2 * a, d) == 2 * Or(a, d / 2) + d % 2
  {
    if a == 0 {
    } else if d == 0 {
      assert Or(a, 0) == a;
    }
  }

  lemma {:induction false} OrOneBit(x: nat, d: nat)
    requires d < 2
    ensures Or(2 * x, d) == 2 * x + d
  {
    OrHalves(x, d);
    assert d / 2 == 0;
  }

  lemma {:induction false} OrTwoBits(x: nat, d: nat)
    requires d < 4
    ensures Or(4 * x, d) == 4 * x + d
  {
    OrOneBit(x, d / 2);
    OrHalves(2 * x, d);
  }

  lemma {:induction false} OrThreeBits(x: nat, d: nat)
    requires d < 8
    ensures Or(8 * x, d) == 8 * x + d
  {
    OrTwoBits(x, d / 2);
    OrHalves(4 * x, d);
  }

  /** Or-ing a nibble into cleared low bits adds it. */
  lemma {:induction false} OrNibble(x: nat, d: nat)
    requires d < 16
    ensures Or(16 * x, d) == 16 * x + d
  {
    OrThreeBits(x, d / 2);
    OrHalves(8 * x, d);
  }

  lemma {:induction false} OrBound(a: nat, b: nat, k: nat)
    requires a < Pow2(k) && b < Pow2(k)
    ensures Or(a, b) < Pow2(k)
    decreases k
  {
    if k > 0 && a > 0 && b > 0 { OrBound(a / 2, b / 2, k - 1); }
  }

  function ByteHex(b: byte): (s: seq<byte>)
    ensures |s| == 2
  {
    [HexDigit(b / 16), HexDigit(b % 16)]
  }

  function HexOf(data: seq<byte>): (s: seq<byte>)
    ensures |s| == 2 * |data|
  {
    if data == [] then [] else HexOf(data[..|data| - 1]) + ByteHex(data[|data| - 1])
  }

  /** Two characters as one byte, whatever they are: shift and or, cut to 8 bits. */
  function PairValue(hi: byte, lo: byte): byte {
    OrByte(UnhexDigit(hi) * 16 % 256, UnhexDigit(lo))
  }

  function OrByte(a: byte, b: byte): (r: byte)
    ensures r == Or(a, b)
  {
    assert Pow2(8) == 256;
    OrBound(a, b, 8);
    Or(a, b)
  }

  lemma {:induction false} PairOfDigits(hi: byte, lo: byte)
    requires UnhexDigit(hi) < 16 && UnhexDigit(lo) < 16
    ensures PairValue(hi, lo) == 16 * UnhexDigit(hi) + UnhexDigit(lo)
  {
    ShiftOr(UnhexDigit(hi), UnhexDigit(lo));
  }

  lemma {:induction false} ShiftOr(h: byte, l: byte)
    requires h < 16 && l < 16
    ensures OrByte(h * 16 % 256, l) == 16 * h + l
  {
    OrNibble(h, l);
    assert h * 16 % 256 == 16 * h;
  }

  lemma {:induction false} PairRoundTrip(b: byte)
    ensures PairValue(HexDigit(b / 16), HexDigit(b % 16)) == b
  {
    DigitRoundTrip(b / 16);
    DigitRoundTrip(b % 16);
    PairOfDigits(HexDigit(b / 16), HexDigit(b % 16));
  }

  lemma {:induction false} HexAt(data: seq<byte>, i: nat)
    requires i < |data|
    ensures HexOf(data)[2 * i..2 * i + 2] == ByteHex(data[i])
  {
    var n := |data| - 1;
    if i < n {
      HexAt(data[..n], i);
      assert HexOf(data)[2 * i..2 * i + 2] == HexOf(data[..n])[2 * i..2 * i + 2];
    }
  }

  /** `hexify`: two digits a byte and a terminating zero. */
  method Hexify(hex: array<byte>, buf: seq<byte>)
    requires hex.Length > 2 * |buf|
    modifies hex
    ensures hex[..2 * |buf|] == HexOf(buf) && hex[2 * |buf|] == 0
    ensures hex[2 * |buf| + 1..] == old(hex[2 * |buf| + 1..])
  {
    var dst := 0;
    for idx := 0 to |buf|
      invariant dst == 2 * idx
      invariant hex[..dst] == HexOf(buf[..idx])
      invariant forall j | 2 * |buf| < j < hex.Length :: hex[j] == old(hex[j])
    {
      hex[dst] := HexDigit(buf[idx] / 16);
      hex[dst + 1] := HexDigit(buf[idx] % 16);
      assert buf[..idx + 1][..idx] == buf[..idx];
      assert hex[..dst + 2] == hex[..dst] + ByteHex(buf[idx]);
      dst := dst + 2;
    }
    assert buf[..|buf|] == buf;
    hex[dst] := 0;
  }

  /** `unhexify`: decode `size` pairs, whatever characters they are. */
  method Unhexify(buf: array<byte>, hex: seq<byte>, size: nat)
    requires size <= buf.Length && 2 * size <= |hex|
    modifies buf
    ensures forall i | 0 <= i < size :: buf[i] == PairValue(hex[2 * i], hex[2 * i + 1])
    ensures buf[size..] == old(buf[size..])
  {
    for idx := 0 to size
      invariant forall i | 0 <= i < idx :: buf[i] == PairValue(hex[2 * i], hex[2 * i + 1])
      invariant forall j | size <= j < buf.Length :: buf[j] == old(buf[j])
    {
      buf[idx] := OrByte(UnhexDigit(hex[2 * idx]) * 16 % 256, UnhexDigit(hex[2 * idx + 1]));
    }
  }

  /** Decoding what was encoded gives the buffer back, for every buffer. */
  method HexRoundTrip(data: seq<byte>) returns (back: seq<byte>)
    ensures back == data
  {
    var hex := new byte[2 * |data| + 1];
    Hexify(hex, data);
    var out := new byte[|data|];
    Unhexify(out, hex[..2 * |data|], |data|);
    forall i | 0 <= i < |data| ensures out[i] == data[i] {
      HexAt(data, i);
      assert HexOf(data)[2 * i] == HexOf(data)[2 * i..2 * i + 2][0];
      assert HexOf(data)[2 * i + 1] == HexOf(data)[2 * i..2 * i + 2][1];
      PairRoundTrip(data[i]);
    }
    back := out[..];
  }

  // ----- numbers of the remote-control protocol -------------------------------------------

  /** A 64-bit unsigned value. */
  type u64 = x: int | 0 <= x < 0x1_0000_0000_0000_0000

  lemma {:induction false} Pow2Plus8(k: nat)
    ensures Pow2(k + 8) == 256 * Pow2(k)
  {
    assert Pow2(k + 2) == 4 * Pow2(k);
    assert Pow2(k + 4) == 4 * Pow2(k + 2);
    assert Pow2(k + 6) == 4 * Pow2(k + 4);
  }

  lemma {:induction false} Pow2Of64()
    ensures Pow2(64) == U64
  {
    Pow2Plus8(0);
    Pow2Plus8(8);
    Pow2Plus8(16);
    Pow2Plus8(24);
    Pow2Plus8(32);
    Pow2Plus8(40);
    Pow2Plus8(48);
    Pow2Plus8(56);
  }

  /** Shift a digit into a 64-bit value. */
  function ShiftIn(v: u64, d: byte): u64 {
    Pow2Of64();
    OrBound(v * 16 % U64, d, 64);
    Or(v * 16 % U64, d)
  }

  /** Value of a digit string, most significant first. */
  function DigitsValue(s: seq<byte>): u64 {
    if s == [] then 0 else ShiftIn(DigitsValue(s[..|s| - 1]), UnhexDigit(s[|s| - 1]))
  }

  /** The digits `remote_respond` stores, least significant first. */
  function LowDigits(v: u64, n: nat): (s: seq<byte>)
    ensures |s| <= n
  {
    if n == 0 || v == 0 then [] else [HexDigit(v % 16)] + LowDigits(v / 16, n - 1)
  }

  function Reverse(s: seq<byte>): (r: seq<byte>)
    ensures |r| == |s|
  {
    if s == [] then [] else Reverse(s[1..]) + [s[0]]
  }

  /** The number as it goes onto the wire. */
  function PrintNumber(v: u64): seq<byte> {
    if v == 0 then [0x30] else Reverse(LowDigits(v, 16))
  }

  function Pow16(n: nat): nat { if n == 0 then 1 else 16 * Pow16(n - 1) }

  lemma {:induction false} AllFit()
    ensures Pow16(16) == U64
  {
    assert Pow16(4) == 0x1_0000 && Pow16(8) == 0x1_0000_0000 && Pow16(12) == 0x1_0000_0000_0000;
  }

  lemma {:induction false} DigitsSnoc(s: seq<byte>, d: byte)
    ensures DigitsValue(s + [d]) == ShiftIn(DigitsValue(s), UnhexDigit(d))
  {
    assert (s + [d])[..|s|] == s;
  }

  lemma {:induction false} LowDigitsValue(v: u64, n: nat)
    requires v < Pow16(n)
    ensures DigitsValue(Reverse(LowDigits(v, n))) == v
  {
    if n > 0 && v != 0 {
      LowDigitsValue(v / 16, n - 1);
      var d := HexDigit(v % 16);
      var rest := LowDigits(v / 16, n - 1);
      ReverseCons(d, rest);
      DigitRoundTrip(v % 16);
      PushNibble(Reverse(rest), d, v);
    }
  }

  lemma {:induction false} ReverseCons(d: byte, rest: seq<byte>)
    ensures Reverse([d] + rest) == Reverse(rest) + [d]
  {
    assert ([d] + rest)[1..] == rest;
  }

  lemma {:induction false} ShiftInNibble(v: u64, d: byte)
    requires 16 * v < U64 && d < 16
    ensures ShiftIn(v, d) == 16 * v + d
  {
    OrNibble(v, d);
    assert v * 16 % U64 == 16 * v;
  }

  lemma {:induction false} PushNibble(s: seq<byte>, d: byte, v: u64)
    requires DigitsValue(s) == v / 16 && UnhexDigit(d) == v % 16
    ensures DigitsValue(s + [d]) == v
  {
    DigitsSnoc(s, d);
    ShiftInNibble(v / 16, v % 16);
  }

  lemma {:induction false} LowDigitsPrint(v: u64, n: nat)
    requires 0 < v < Pow16(n) && n > 0
    ensures var s := Reverse(LowDigits(v, n)); DigitsValue(s) == v && 1 <= |s| <= n
  {
    LowDigitsValue(v, n);
  }

  /** Every 64-bit value printed by the probe is the value the host decodes, zero included. */
  lemma {:induction false} NumberRoundTrip(v: u64)
    ensures DigitsValue(PrintNumber(v)) == v
    ensures 1 <= |PrintNumber(v)| <= 16
  {
    if v == 0 {
      ZeroPrints();
    } else {
      AllFit();
      LowDigitsPrint(v, 16);
    }
  }

  /** It is printed in upper-case digits, without leading zeros. */
  lemma {:induction false} NoLeadingZero(v: u64)
    ensures v == 0 ==> PrintNumber(v) == ['0' as int]
    ensures v != 0 ==> PrintNumber(v)[0] != '0' as int
    ensures forall i | 0 <= i < |PrintNumber(v)| :: IsUpperHex(PrintNumber(v)[i])
  {
    if v != 0 {
      AllFit();
      TopDigit(v, 16);
      var s := LowDigits(v, 16);
      ReverseAt(s, 0);
      forall i | 0 <= i < |PrintNumber(v)| ensures IsUpperHex(PrintNumber(v)[i]) { ReverseAt(s, i); }
    }
  }

  lemma {:induction false} TopDigit(v: u64, n: nat)
    requires 0 < v < Pow16(n)
    ensures var s := LowDigits(v, n);
      s != [] && s[|s| - 1] != 0x30 && forall i | 0 <= i < |s| :: IsUpperHex(s[i])
  {
    HexIs(v % 16);
    if v >= 16 {
      TopDigit(v / 16, n - 1);
      var rest := LowDigits(v / 16, n - 1);
      assert LowDigits(v, n) == [HexDigit(v % 16)] + rest;
    }
  }

  lemma {:induction false} ZeroPrints()
    ensures DigitsValue([0x30]) == 0
  {
    DigitsSnoc([], 0x30);
    assert [] + [0x30] == [0x30];
    ShiftInNibble(0, 0);
  }

  const REMOTE_RESP: byte := 0x26  // '&'
  const REMOTE_EOM: byte := 0x23   // '#'

  lemma {:induction false} DigitsMove(done: seq<byte>, v: u64, n: nat)
    requires n > 0 && v != 0
    ensures done + [HexDigit(v % 16)] + LowDigits(v / 16, n - 1) == done + LowDigits(v, n)
  {
  }

  /** The first loop of `remote_respond`: digits least significant first, at least one. */
  method CollectDigits(v: u64, response: array<byte>) returns (idx: nat)
    requires response.Length == 16
    modifies response
    ensures idx <= 16
    ensures response[..idx] == if v == 0 then [0x30] else LowDigits(v, 16)
  {
    idx := 0;
    var param := v;
    while idx < 16 && param != 0
      invariant 0 <= idx <= 16
      invariant response[..idx] + LowDigits(param, 16 - idx) == LowDigits(v, 16)
      invariant idx == 0 ==> param == v
      decreases 16 - idx
    {
      DigitsMove(response[..idx], param, 16 - idx);
      response[idx] := HexDigit(param % 16);
      assert response[..idx + 1] == response[..idx] + [HexDigit(param % 16)];
      param := param / 16;
      idx := idx + 1;
    }
    assert response[..idx] + [] == response[..idx];
    if idx == 0 {
      response[idx] := 0x30;
      idx := 1;
    }
  }

  /** `remote_respond`: collect the digits backwards, then send them forwards. */
  method RemoteRespond(code: byte, v: u64) returns (wire: seq<byte>)
    ensures wire == [REMOTE_RESP, code] + PrintNumber(v) + [REMOTE_EOM]
  {
    var response := new byte[16];
    var idx := CollectDigits(v, response);
    ReverseOne(0x30);
    var sent := SendBackwards(response[..idx]);
    wire := [REMOTE_RESP, code] + sent + [REMOTE_EOM];
  }

  method SendBackwards(response: seq<byte>) returns (sent: seq<byte>)
    ensures sent == Reverse(response)
  {
    sent := [];
    var idx := |response|;
    assert response[..idx] == response && [] + Reverse(response) == Reverse(response);
    while idx > 0
      invariant 0 <= idx <= |response|
      invariant sent + Reverse(response[..idx]) == Reverse(response)
    {
      idx := idx - 1;
      ReverseSnoc(response[..idx], response[idx]);
      assert response[..idx + 1] == response[..idx] + [response[idx]];
      sent := sent + [response[idx]];
    }
    assert sent + [] == sent;
  }

  lemma {:induction false} ReverseOne(d: byte)
    ensures Reverse([d]) == [d]
  {
  }

  lemma {:induction false} ReverseSnoc(s: seq<byte>, d: byte)
    ensures Reverse(s + [d]) == [d] + Reverse(s)
  {
    if s == [] {
      assert [] + [d] == [d];
    } else {
      assert (s + [d])[1..] == s[1..] + [d];
      ReverseSnoc(s[1..], d);
    }
  }

  /** `remote_decode_response`. */
  method RemoteDecode(response: seq<byte>) returns (value: u64)
    ensures value == DigitsValue(response)
  {
    value := 0;
    for idx := 0 to |response|
      invariant value == DigitsValue(response[..idx])
    {
      assert response[..idx + 1][..idx] == response[..idx];
      value := ShiftIn(value, UnhexDigit(response[idx]));
    }
    assert response[..|response|] == response;
  }

  predicate IsHex(c: byte) { IsUpperHex(c) || IsLowerHex(c) }

  /** How many of the first `most` characters are digits before the first that is not. */
  function DigitCount(s: seq<byte>, most: nat): (n: nat)
    requires most <= |s| || exists i | 0 <= i < |s| :: !IsHex(s[i])
    ensures n <= most && n <= |s| && forall i | 0 <= i < n :: IsHex(s[i])
    ensures n < most ==> n < |s| && !IsHex(s[n])
  {
    if most == 0 || !IsHex(s[0]) then 0 else 1 + DigitCount(s[1..], most - 1)
  }

  /** `hex_string_to_num` on a string that has enough characters or ends in one that is no digit, as a
      terminated string does. */
  method HexStringToNum(maxDigits: nat, str: seq<byte>) returns (value: u64)
    requires maxDigits <= |str| || exists i | 0 <= i < |str| :: !IsHex(str[i])
    ensures value == DigitsValue(str[..DigitCount(str, maxDigits)])
  {
    value := 0;
    ghost var n := DigitCount(str, maxDigits);
    for offset := 0 to maxDigits
      invariant offset <= n && value == DigitsValue(str[..offset])
    {
      if !IsHex(str[offset]) { return; }
      assert str[..offset + 1][..offset] == str[..offset];
      value := ShiftIn(value, UnhexDigit(str[offset]));
    }
  }

  lemma {:induction false} LowDigitsAreHex(v: u64, n: nat, i: nat)
    requires i < |LowDigits(v, n)|
    ensures IsHex(LowDigits(v, n)[i])
  {
    DigitRoundTrip(v % 16);
    if i > 0 { LowDigitsAreHex(v / 16, n - 1, i - 1); }
  }

  lemma {:induction false} ReverseAt(s: seq<byte>, i: nat)
    requires i < |s|
    ensures Reverse(s)[i] == s[|s| - 1 - i]
  {
    if i < |s| - 1 { ReverseAt(s[1..], i); }
  }

  lemma {:induction false} PrintedIsHex(v: u64, i: nat)
    requires i < |PrintNumber(v)|
    ensures IsHex(PrintNumber(v)[i])
  {
    if v != 0 {
      var s := LowDigits(v, 16);
      ReverseAt(s, i);
      LowDigitsAreHex(v, 16, |s| - 1 - i);
    }
  }

  lemma {:induction false} CountIs(p: seq<byte>, rest: seq<byte>, most: nat)
    requires |p| <= most && rest != [] && !IsHex(rest[0]) && forall i | 0 <= i < |p| :: IsHex(p[i])
    ensures !IsHex((p + rest)[|p|]) && DigitCount(p + rest, most) == |p|
    decreases |p|
  {
    if p == [] {
      assert p + rest == rest;
    } else {
      assert (p + rest)[1..] == p[1..] + rest;
      CountIs(p[1..], rest, most - 1);
      assert (p + rest)[|p|] == rest[0];
    }
  }

  /** A printed number is read back whatever follows it, as long as that is not a digit. */
  lemma {:induction false} PrintedIsParsed(v: u64, rest: seq<byte>)
    requires rest != [] && !IsHex(rest[0])
    ensures var s := PrintNumber(v) + rest; !IsHex(s[|PrintNumber(v)|]) && DigitsValue(s[..DigitCount(s, 16)]) == v
  {
    var p := PrintNumber(v);
    NumberRoundTrip(v);
    forall i | 0 <= i < |p| ensures IsHex(p[i]) { PrintedIsHex(v, i); }
    CountIs(p, rest, 16);
    assert (p + rest)[..|p|] == p;
  }
}
