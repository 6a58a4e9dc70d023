/** An RTT up-channel: a ring in target memory that the target fills while it runs and the
    probe drains by polling.  The target is never stopped: it may put more bytes into the ring
    between any two bytes the probe reads. */
module RttChannel {
  import opened Common

  // ----- the target ------------------------------------------------------------------

  /** The ring, the memory around it, the channel's descriptor in the control block, and the
      record of every byte the target has put into the ring. */
  datatype Target = Target(base: nat, outside: nat -> byte, ring: seq<byte>, head: nat, tail: nat, produced: seq<byte>)

  function RingAdd(size: nat, i: nat, k: nat): (r: nat)
    requires i < size && k < size
    ensures r < size
  {
    if i + k < size then i + k else i + k - size
  }

  /** Bytes between `tail` and `head`, going forward around the ring. */
  function Unread(size: nat, head: nat, tail: nat): (n: nat)
    requires size > 0 ==> head < size && tail < size
    ensures size > 0 ==> n < size && RingAdd(size, tail, n) == head
  {
    if size == 0 then 0 else if head >= tail then head - tail else size - tail + head
  }

  predicate RingOk(t: Target) {
    && (if |t.ring| > 0 then t.head < |t.ring| && t.tail < |t.ring| else t.head == 0 && t.tail == 0)
    && t.base + |t.ring| <= U32
  }

  /** The first unread bytes are `bytes`. */
  ghost predicate Has(t: Target, bytes: seq<byte>) {
    && RingOk(t)
    && |bytes| <= Unread(|t.ring|, t.head, t.tail)
    && forall k | 0 <= k < |bytes| :: t.ring[RingAdd(|t.ring|, t.tail, k)] == bytes[k]
  }

  /** All but the first `acked` bytes produced are unread in the ring, in order. */
  ghost predicate Conserves(t: Target, acked: nat) {
    && RingOk(t)
    && |t.produced| == acked + Unread(|t.ring|, t.head, t.tail)
    && Has(t, t.produced[acked..])
  }

  /** The target's own writer: a byte goes in unless the ring is full. */
  function Put(t: Target, b: byte): Target
    requires RingOk(t)
  {
    var size := |t.ring|;
    if size > 1 && RingAdd(size, t.head, 1) != t.tail
    then t.(ring := t.ring[t.head := b], head := RingAdd(size, t.head, 1), produced := t.produced + [b])
    else t
  }

  function Runs(t: Target, bs: seq<byte>): (r: Target)
    requires RingOk(t)
    ensures RingOk(r) && r.base == t.base && r.outside == t.outside && |r.ring| == |t.ring| && r.tail == t.tail
  {
    if bs == [] then t else Put(Runs(t, bs[..|bs| - 1]), bs[|bs| - 1])
  }

  lemma {:induction false} PutKeeps(t: Target, b: byte, kept: seq<byte>)
    requires Has(t, kept)
    ensures Has(Put(t, b), kept) && t.produced <= Put(t, b).produced
  {
    assert Unread(|t.ring|, Put(t, b).head, t.tail) >= Unread(|t.ring|, t.head, t.tail);
  }

  lemma {:induction false} PutConserves(t: Target, b: byte, acked: nat)
    requires Conserves(t, acked)
    ensures Conserves(Put(t, b), acked)
  {
    var r := Put(t, b);
    if r != t {
      assert Unread(|t.ring|, r.head, t.tail) == Unread(|t.ring|, t.head, t.tail) + 1;
      assert r.produced[acked..] == t.produced[acked..] + [b];
    }
  }

  /** However long the target runs, bytes that are unread stay where they are. */
  lemma {:induction false} RunsKeep(t: Target, bs: seq<byte>, kept: seq<byte>)
    requires Has(t, kept)
    ensures Has(Runs(t, bs), kept) && t.produced <= Runs(t, bs).produced
  {
    if bs != [] {
      RunsKeep(t, bs[..|bs| - 1], kept);
      PutKeeps(Runs(t, bs[..|bs| - 1]), bs[|bs| - 1], kept);
    }
  }

  lemma {:induction false} RunsConserve(t: Target, bs: seq<byte>, acked: nat)
    requires Conserves(t, acked)
    ensures Conserves(Runs(t, bs), acked)
  {
    if bs != [] {
      RunsConserve(t, bs[..|bs| - 1], acked);
      PutConserves(Runs(t, bs[..|bs| - 1]), bs[|bs| - 1], acked);
    }
  }

  lemma {:induction false} RunsThen(t: Target, a: seq<byte>, b: seq<byte>)
    requires RingOk(t)
    ensures Runs(t, a + b) == Runs(Runs(t, a), b)
  {
    if b == [] {
      assert a + b == a;
    } else {
      assert (a + b)[..|a + b| - 1] == a + b[..|b| - 1];
      RunsThen(t, a, b[..|b| - 1]);
    }
  }

  /** Moving the tail over `n` unread bytes drops exactly those from the front. */
  function Advance(t: Target, tail: nat): Target { t.(tail := tail) }

  lemma {:induction false} AdvanceConserves(t: Target, acked: nat, n: nat)
    requires Conserves(t, acked) && |t.ring| > 0 && n <= Unread(|t.ring|, t.head, t.tail)
    ensures Conserves(Advance(t, RingAdd(|t.ring|, t.tail, n)), acked + n)
  {
    var r := Advance(t, RingAdd(|t.ring|, t.tail, n));
    var m := Unread(|t.ring|, t.head, t.tail);
    assert Unread(|t.ring|, r.head, r.tail) == m - n;
    forall k | 0 <= k < m - n
      ensures r.ring[RingAdd(|t.ring|, r.tail, k)] == r.produced[acked + n..][k]
    {
      assert RingAdd(|t.ring|, r.tail, k) == RingAdd(|t.ring|, t.tail, n + k);
      assert t.produced[acked..][n + k] == r.produced[acked + n..][k];
    }
  }

  function Fetch(t: Target, addr: nat): byte {
    if t.base <= addr < t.base + |t.ring| then t.ring[addr - t.base] else t.outside(addr)
  }

  // ----- the probe ---------------------------------------------------------------------

  /** What happens around one probe access: `ran(i)` is what the target tries to put into the
      ring before the i-th unit is transferred; `ok` is the access's own outcome. */
  datatype Access = Access(ran: nat -> seq<byte>, ok: bool)

  datatype Retval = Ok | Idle | Err

  /** `x` holds the bytes `kept` that lie in `addr .. addr + len`, from `dest` on. */
  ghost predicate Shows(t: Target, kept: seq<byte>, x: seq<byte>, dest: nat, addr: nat, len: nat)
    requires Has(t, kept) && dest + len <= |x|
  {
    forall k | 0 <= k < |kept| ::
      var at := t.base + RingAdd(|t.ring|, t.tail, k);
      addr <= at < addr + len ==> x[dest + at - addr] == kept[k]
  }

  lemma {:induction false} ShowsStep(t: Target, u: Target, kept: seq<byte>, x: seq<byte>, y: seq<byte>, dest: nat,
                                     addr: nat, i: nat)
    requires Has(t, kept) && Has(u, kept) && u.base == t.base && |u.ring| == |t.ring| && u.tail == t.tail
    requires dest + i < |x| && Shows(t, kept, x, dest, addr, i)
    requires y == x[dest + i := Fetch(u, addr + i)]
    ensures Shows(u, kept, y, dest, addr, i + 1)
  {
    forall k | 0 <= k < |kept|
      ensures var at := u.base + RingAdd(|u.ring|, u.tail, k);
        addr <= at < addr + i + 1 ==> y[dest + at - addr] == kept[k]
    {
      assert u.ring[RingAdd(|u.ring|, u.tail, k)] == kept[k];
    }
  }

  /** Reading whole words around a range and moving the bytes down shows the same bytes. */
  lemma {:induction false} ShowsShifted(t: Target, kept: seq<byte>, x: seq<byte>, y: seq<byte>, dest: nat, src: nat,
                                        len: nat, offset: nat, len0: nat)
    requires Has(t, kept) && offset <= src && offset + len <= len0 && dest + len0 <= |x| && |y| == |x|
    requires Shows(t, kept, x, dest, src - offset, len0)
    requires forall p | dest <= p < dest + len :: y[p] == x[p + offset]
    ensures Shows(t, kept, y, dest, src, len)
  {
  }

  /** A contiguous piece of the ring that shows `kept` shows it at consecutive positions. */
  lemma {:induction false} ShowsSegment(t: Target, kept: seq<byte>, x: seq<byte>, done: nat, len: nat)
    requires Has(t, kept) && 0 < |t.ring| && done + len <= |kept| && done + len <= |x|
    requires RingAdd(|t.ring|, t.tail, done) + len <= |t.ring|
    requires Shows(t, kept, x, done, t.base + RingAdd(|t.ring|, t.tail, done), len)
    ensures x[done..done + len] == kept[done..done + len]
  {
    forall j | done <= j < done + len ensures x[j] == kept[j] { ShowsAt(t, kept, x, done, len, j); }
    SlicesAgree(x, kept, done, done + len);
  }

  lemma {:induction false} SlicesAgree(x: seq<byte>, y: seq<byte>, a: nat, b: nat)
    requires a <= b <= |x| && b <= |y| && forall j | a <= j < b :: x[j] == y[j]
    ensures x[a..b] == y[a..b]
  {
  }

  lemma {:induction false} ShowsAt(t: Target, kept: seq<byte>, x: seq<byte>, done: nat, len: nat, j: nat)
    requires Has(t, kept) && 0 < |t.ring| && done + len <= |kept| && done + len <= |x| && done <= j < done + len
    requires RingAdd(|t.ring|, t.tail, done) + len <= |t.ring|
    requires Shows(t, kept, x, done, t.base + RingAdd(|t.ring|, t.tail, done), len)
    ensures x[j] == kept[j]
  {
    var from := RingAdd(|t.ring|, t.tail, done);
    assert RingAdd(|t.ring|, t.tail, j) == from + (j - done);
  }

  /** The tail after a contiguous read. */
  lemma {:induction false} TailMoves(size: nat, tail: nat, done: nat, len: nat)
    requires tail < size && done + len < size && RingAdd(size, tail, done) + len <= size
    ensures (RingAdd(size, tail, done) + len) % size == RingAdd(size, tail, done + len)
  {
    ModStep(RingAdd(size, tail, done) + len, size);
  }

  lemma {:induction false} ModStep(x: nat, size: nat)
    requires 0 < size && x <= size
    ensures x % size == if x < size then x else 0
  {
  }

  /** Do the reads succeed that are made for `unread` bytes from `tail` on, with room for so many? The first
      is made if they go round the end of the ring, the second if there is something before the head and
      room is left. */
  predicate ReadsWork(size: nat, tail: nat, unread: nat, room: nat, first: bool, second: bool) {
    if tail + unread >= size then first && (second || tail + unread == size || size - tail >= room)
    else second || unread == 0
  }

  /** A segment read after `done` bytes that are in place already, and the tail after it. */
  lemma {:induction false} SegmentRead(t: Target, kept: seq<byte>, x: seq<byte>, done: nat, len: nat, from: nat)
    requires Has(t, kept) && 0 < |t.ring| && done + len <= |kept| && done + len <= |x|
    requires from == RingAdd(|t.ring|, t.tail, done) && from + len <= |t.ring|
    requires Shows(t, kept, x, done, t.base + from, len) && x[..done] == kept[..done]
    ensures x[..done + len] == kept[..done + len]
    ensures (from + len) % |t.ring| == RingAdd(|t.ring|, t.tail, done + len)
  {
    ShowsSegment(t, kept, x, done, len);
    SegmentJoins(x, kept, done, len);
    TailMoves(|t.ring|, t.tail, done, len);
  }

  class Link {
    var t: Target
    var chHead: nat            // the probe's copy of the descriptor
    var chTail: nat
    const xmit: array<byte>    // bounce buffer
    var delivered: seq<byte>   // everything handed to USB

    /** Nothing lost, repeated or reordered: what was delivered is a prefix of what was produced,
        and the rest of it is what is still unread in the ring. */
    ghost predicate Valid()
      reads this
    {
      xmit.Length > 8 && delivered <= t.produced && Conserves(t, |delivered|)
    }

    /** The target may have printed already: `produced` then begins with what is unread. */
    constructor (t: Target, xmit: array<byte>)
      requires Conserves(t, 0) && xmit.Length > 8
      ensures Valid() && this.t == t && delivered == [] && this.xmit == xmit
    {
      this.t, this.xmit := t, xmit;
      chHead, chTail, delivered := 0, 0, [];
    }

    /** `target_mem_read`, byte by byte while the target runs. */
    method MemRead(dest: nat, addr: nat, len: nat, a: Access, ghost kept: seq<byte>)
      returns (ok: bool, ghost ran: seq<byte>)
      requires dest + len <= xmit.Length && Has(t, kept)
      modifies this`t, xmit
      ensures t == Runs(old(t), ran) && Has(t, kept) && ok == a.ok
      ensures ok ==> Shows(t, kept, xmit[..], dest, addr, len)
      ensures xmit[..dest] == old(xmit[..dest])
    {
      ran := [];
      for i := 0 to len
        invariant t == Runs(old(t), ran) && Has(t, kept)
        invariant Shows(t, kept, xmit[..], dest, addr, i)
        invariant xmit[..dest] == old(xmit[..dest])
      {
        ghost var before, x := t, xmit[..];
        RunsKeep(t, a.ran(i), kept);
        RunsThen(old(t), ran, a.ran(i));
        t, ran := Runs(t, a.ran(i)), ran + a.ran(i);
        xmit[dest + i] := Fetch(t, addr + i);
        ShowsStep(before, t, kept, x, xmit[..], dest, addr, i);
      }
      ok := a.ok;
    }

    method MoveDown(dest: nat, offset: nat, len: nat)
      requires dest + offset + len <= xmit.Length
      modifies xmit
      ensures forall p | dest <= p < dest + len :: xmit[p] == old(xmit[p + offset])
      ensures xmit[..dest] == old(xmit[..dest])
    {
      ghost var x := xmit[..];
      for i := 0 to len
        invariant forall p | dest <= p < dest + i :: xmit[p] == x[p + offset]
        invariant forall p | dest + i <= p < xmit.Length :: xmit[p] == x[p]
        invariant xmit[..dest] == x[..dest]
      {
        xmit[dest + i] := xmit[dest + offset + i];
      }
    }

    /** `rtt_aligned_mem_read`: read whole words around the range, then move the bytes down. */
    method AlignedRead(dest: nat, src: nat, len: nat, a: Access, ghost kept: seq<byte>)
      returns (ok: bool, ghost ran: seq<byte>)
      requires dest + len + 8 <= xmit.Length && Has(t, kept)
      modifies this`t, xmit
      ensures t == Runs(old(t), ran) && Has(t, kept) && ok == a.ok
      ensures ok ==> Shows(t, kept, xmit[..], dest, src, len)
      ensures xmit[..dest] == old(xmit[..dest])
    {
      var offset := src % 4;
      var src0 := src - offset;
      var len0 := WholeWords(len + offset);
      if src0 == src && len0 == len {
        ok, ran := MemRead(dest, src, len, a, kept);
        return;
      }
      ok, ran := ReadAround(dest, src, len, offset, len0, a, kept);
    }

    /** Read `len0` bytes from `offset` before `src`, and keep those from `src` on. */
    method ReadAround(dest: nat, src: nat, len: nat, offset: nat, len0: nat, a: Access, ghost kept: seq<byte>)
      returns (ok: bool, ghost ran: seq<byte>)
      requires dest + len0 <= xmit.Length && offset + len <= len0 && offset <= src && Has(t, kept)
      modifies this`t, xmit
      ensures t == Runs(old(t), ran) && Has(t, kept) && ok == a.ok
      ensures ok ==> Shows(t, kept, xmit[..], dest, src, len)
      ensures xmit[..dest] == old(xmit[..dest])
    {
      ok, ran := MemRead(dest, src - offset, len0, a, kept);
      ghost var x := xmit[..];
      MoveDown(dest, offset, len);
      if ok { ShowsShifted(t, kept, x, xmit[..], dest, src, len, offset, len0); }
    }

    /** One of the two contiguous reads of `print_rtt`; on success the probe's tail moves on. */
    method ReadSegment(done: nat, len: nat, a: Access, ghost kept: seq<byte>)
      returns (ok: bool, ghost ran: seq<byte>)
      requires |t.ring| > 0 && Has(t, kept) && done + len <= |kept|
      requires chTail == RingAdd(|t.ring|, t.tail, done) && chTail + len <= |t.ring|
      requires done + len + 8 <= xmit.Length && xmit[..done] == kept[..done]
      modifies this`t, this`chTail, xmit
      ensures t == Runs(old(t), ran) && Has(t, kept) && ok == a.ok
      ensures ok ==> chTail == RingAdd(|t.ring|, t.tail, done + len) && xmit[..done + len] == kept[..done + len]
    {
      var from := chTail;
      ok, ran := AlignedRead(done, t.base + from, len, a, kept);
      if ok {
        SegmentRead(t, kept, xmit[..], done, len, from);
        chTail := (from + len) % |t.ring|;
      }
    }

    /** The second read of `print_rtt`: up to the head, if there is room left. */
    method ReadToHead(done: nat, bytesFree: nat, second: Access, ghost kept: seq<byte>)
      returns (ok: bool, bytesRead: nat, ghost ran: seq<byte>)
      requires |t.ring| > 0 && Has(t, kept) && chHead < |t.ring| && done <= |kept|
      requires done + bytesFree + 8 == xmit.Length && xmit[..done] == kept[..done]
      requires chTail == RingAdd(|t.ring|, t.tail, done)
      requires if chTail <= chHead then |kept| == done + chHead - chTail else bytesFree == 0
      modifies this`t, this`chTail, xmit
      ensures t == Runs(old(t), ran) && Has(t, kept)
      ensures ok <==> second.ok || chHead <= old(chTail) || bytesFree == 0
      ensures ok ==>
        && bytesRead == Min(|kept|, xmit.Length - 8)
        && chTail == RingAdd(|t.ring|, t.tail, bytesRead) && xmit[..bytesRead] == kept[..bytesRead]
    {
      bytesRead := done;
      ran := [];
      ok := true;
      if chHead > chTail && bytesFree > 0 {
        var len := Min(chHead - chTail, bytesFree);
        ok, ran := ReadSegment(bytesRead, len, second, kept);
        bytesRead := bytesRead + len;
      }
    }

    /** The reading half of `print_rtt`: one read up to the end of the ring if the unread bytes
        wrap, then one up to the head if there is room left. */
    method Gather(first: Access, second: Access, ghost kept: seq<byte>)
      returns (ok: bool, bytesRead: nat, ghost ran: seq<byte>)
      requires |t.ring| > 0 && Has(t, kept) && chTail == t.tail && chHead < |t.ring| && xmit.Length > 8
      requires |kept| == Unread(|t.ring|, chHead, t.tail)
      modifies this`t, this`chTail, xmit
      ensures t == Runs(old(t), ran) && Has(t, kept)
      ensures ok <==> ReadsWork(|t.ring|, t.tail, |kept|, xmit.Length - 8, first.ok, second.ok)
      ensures ok ==>
        && bytesRead == Min(|kept|, xmit.Length - 8)
        && chTail == RingAdd(|t.ring|, t.tail, bytesRead) && xmit[..bytesRead] == kept[..bytesRead]
    {
      var bytesFree := xmit.Length - 8;
      if chTail > chHead {
        var len := Min(|t.ring| - chTail, bytesFree);
        ghost var ran1, ran2;
        ok, ran1 := ReadSegment(0, len, first, kept);
        ran := ran1;
        bytesRead := 0;
        if !ok { return; }
        ok, bytesRead, ran2 := ReadToHead(len, bytesFree - len, second, kept);
        RunsThen(old(t), ran1, ran2);
        ran := ran1 + ran2;
      } else {
        ok, bytesRead, ran := ReadToHead(0, bytesFree, second, kept);
      }
    }

    /** The writing half: give the ring space back to the target, and only then pass the bytes on. */
    method Commit(n: nat, write: Access, ghost kept: seq<byte>) returns (ok: bool)
      requires Valid() && |t.ring| > 0 && Has(t, kept) && n <= |kept| && n <= xmit.Length
      requires chTail == RingAdd(|t.ring|, t.tail, n) && xmit[..n] == kept[..n]
      modifies this`t, this`delivered
      ensures Valid() && ok == write.ok && old(t).produced <= t.produced
      ensures delivered == old(delivered) + if ok then kept[..n] else []
    {
      RunsKeep(t, write.ran(0), kept);
      RunsConserve(t, write.ran(0), |delivered|);
      t := Runs(t, write.ran(0));
      ok := write.ok;
      if ok {
        HasAgree(t, kept, |delivered|);
        AdvanceConserves(t, |delivered|, n);
        t := Advance(t, chTail);
        delivered := delivered + xmit[..n];
      }
    }

    /** `print_rtt`, with the probe's copy of the descriptor already taken: `kept` is what was
        unread then. */
    method PrintRtt(first: Access, second: Access, write: Access, ghost kept: seq<byte>) returns (r: Retval)
      requires Valid() && Has(t, kept) && chTail == t.tail
      requires if |t.ring| > 0 then chHead < |t.ring| && |kept| == Unread(|t.ring|, chHead, t.tail)
               else chHead == 0 && kept == []
      modifies this`t, this`chTail, this`delivered, xmit
      ensures Valid() && old(t).produced <= t.produced
      ensures delivered == old(delivered) + if r == Ok then kept[..Min(|kept|, xmit.Length - 8)] else []
      ensures r == Idle <==> old(t).base == 0 || kept == []
      ensures r != Idle ==>
        (r == Ok
         <==> write.ok && ReadsWork(|old(t).ring|, old(t).tail, |kept|, xmit.Length - 8, first.ok, second.ok))
    {
      if t.base == 0 || |t.ring| == 0 { return Idle; }
      if chHead >= |t.ring| || chTail >= |t.ring| { return Err; }
      if chHead == chTail { return Idle; }
      var ok := PassOn(first, second, write, kept);
      return if ok then Ok else Err;
    }

    /** Read what there is room for, then write the tail back; the bytes go on only if all that worked. */
    method PassOn(first: Access, second: Access, write: Access, ghost kept: seq<byte>) returns (ok: bool)
      requires Valid() && |t.ring| > 0 && Has(t, kept) && chTail == t.tail && chHead < |t.ring|
      requires |kept| == Unread(|t.ring|, chHead, t.tail)
      modifies this`t, this`chTail, this`delivered, xmit
      ensures Valid() && old(t).produced <= t.produced
      ensures delivered == old(delivered) + if ok then kept[..Min(|kept|, xmit.Length - 8)] else []
      ensures ok
         <==> write.ok && ReadsWork(|old(t).ring|, old(t).tail, |kept|, xmit.Length - 8, first.ok, second.ok)
    {
      var n;
      ok, n := GatherValid(first, second, kept);
      if ok { ok := Commit(n, write, kept); }
    }

    method GatherValid(first: Access, second: Access, ghost kept: seq<byte>) returns (ok: bool, bytesRead: nat)
      requires Valid() && |t.ring| > 0 && Has(t, kept) && chTail == t.tail && chHead < |t.ring|
      requires |kept| == Unread(|t.ring|, chHead, t.tail)
      modifies this`t, this`chTail, xmit
      ensures Valid() && Has(t, kept) && old(t).produced <= t.produced
      ensures |t.ring| == |old(t).ring| && t.tail == old(t).tail
      ensures ok <==> ReadsWork(|t.ring|, t.tail, |kept|, xmit.Length - 8, first.ok, second.ok)
      ensures ok ==>
        && bytesRead == Min(|kept|, xmit.Length - 8)
        && chTail == RingAdd(|t.ring|, t.tail, bytesRead) && xmit[..bytesRead] == kept[..bytesRead]
    {
      ghost var ran;
      ok, bytesRead, ran := Gather(first, second, kept);
      RunsKeep(old(t), ran, kept);
      RunsConserve(old(t), ran, |delivered|);
    }

    /** Head and tail are copied one after the other, with the target running in between. */
    method CopyDescriptor(descriptor: Access) returns (unread: nat, ghost kept: seq<byte>)
      requires Valid()
      modifies this`t, this`chHead, this`chTail
      ensures Valid() && Has(t, kept) && old(t).produced <= t.produced && t.base == old(t).base
          && |t.ring| == |old(t).ring| && t.tail == old(t).tail
      ensures chTail == t.tail && |kept| == unread
      ensures if |t.ring| > 0 then chHead < |t.ring| && unread == Unread(|t.ring|, chHead, t.tail)
              else chHead == 0 && unread == 0
      ensures |old(t).produced| - |delivered| <= unread <= |t.produced| - |delivered|
    {
      Run(descriptor.ran(0), []);
      chHead := t.head;
      unread := Unread(|t.ring|, t.head, t.tail);
      kept := t.produced[|delivered|..];
      Run(descriptor.ran(1), kept);
      chTail := t.tail;
    }

    /** The I/O part of `poll_rtt` for one enabled up-channel: copy the descriptor, then print.
        `unread` counts what was in the ring at the moment the head was copied. */
    method Poll(descriptor: Access, first: Access, second: Access, write: Access) returns (r: Retval, unread: nat)
      requires Valid()
      modifies this, xmit
      ensures Valid() && old(t).produced <= t.produced && old(delivered) <= delivered
      ensures |old(t).produced| - |old(delivered)| <= unread <= |t.produced| - |old(delivered)|
      ensures r == Ok ==> |delivered| == |old(delivered)| + Min(unread, xmit.Length - 8)
      ensures r != Ok ==> delivered == old(delivered)
      ensures r == Idle <==> descriptor.ok && (unread == 0 || old(t).base == 0)
      ensures r == Ok
         <==> descriptor.ok && unread > 0 && old(t).base > 0 && write.ok
              && ReadsWork(|old(t).ring|, old(t).tail, unread, xmit.Length - 8, first.ok, second.ok)
    {
      ghost var kept;
      unread, kept := CopyDescriptor(descriptor);
      if !descriptor.ok { return Err, unread; }
      r := PrintRtt(first, second, write, kept);
    }

    /** The target runs on its own. */
    method Run(bs: seq<byte>, ghost kept: seq<byte>)
      requires Valid() && Has(t, kept)
      modifies this`t
      ensures Valid() && Has(t, kept) && t == Runs(old(t), bs) && old(t).produced <= t.produced
    {
      RunsKeep(t, bs, kept);
      RunsConserve(t, bs, |delivered|);
      t := Runs(t, bs);
    }
  }

  /** A length rounded up to whole words. */
  function WholeWords(n: nat): (r: nat)
    ensures n <= r < n + 4 && r % 4 == 0
  {
    if n % 4 != 0 then (n + 4) / 4 * 4 else n
  }

  lemma {:induction false} SegmentJoins(x: seq<byte>, kept: seq<byte>, done: nat, len: nat)
    requires done + len <= |x| && done + len <= |kept|
    requires x[..done] == kept[..done] && x[done..done + len] == kept[done..done + len]
    ensures x[..done + len] == kept[..done + len]
  {
    assert x[..done + len] == x[..done] + x[done..done + len];
    assert kept[..done + len] == kept[..done] + kept[done..done + len];
  }

  lemma {:induction false} HasAgree(t: Target, kept: seq<byte>, acked: nat)
    requires Has(t, kept) && Conserves(t, acked)
    ensures kept <= t.produced[acked..]
  {
    var rest := t.produced[acked..];
    forall k | 0 <= k < |kept| ensures kept[k] == rest[k] {
      assert t.ring[RingAdd(|t.ring|, t.tail, k)] == rest[k];
    }
  }

  datatype PollScript = PollScript(idle: seq<byte>, descriptor: Access, first: Access, second: Access, write: Access)

  /** Any session: the target runs, the probe polls, accesses fail, over and over.  After every
      poll the bytes on the USB side are a prefix of the bytes produced, and bytes already
      delivered never change. */
  method Session(link: Link, script: seq<PollScript>) returns (history: seq<seq<byte>>)
    requires link.Valid()
    modifies link, link.xmit
    ensures link.Valid() && |history| == |script|
    ensures forall i | 0 <= i < |script| :: history[i] <= link.t.produced
    ensures forall i, j | 0 <= i <= j < |script| :: history[i] <= history[j]
  {
    history := [];
    for i := 0 to |script|
      invariant link.Valid() && |history| == i
      invariant forall k | 0 <= k < i :: history[k] <= link.delivered
      invariant forall k, j | 0 <= k <= j < i :: history[k] <= history[j]
    {
      link.Run(script[i].idle, []);
      var _, _ := link.Poll(script[i].descriptor, script[i].first, script[i].second, script[i].write);
      history := history + [link.delivered];
    }
  }
}
