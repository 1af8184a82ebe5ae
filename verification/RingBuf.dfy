/** The single-producer single-consumer ring buffer: free-running 32-bit indices, masked on
    access, over a buffer of 64 bytes. */
module RingBuf {
  import opened Words

  const CAPACITY := 64

  // `i & (RB_CAPACITY - 1u)` for a power of two.
  function Slot(i: u32): (k: nat)
    ensures k < CAPACITY
  {
    i % CAPACITY
  }

  // `head - tail` in 32-bit arithmetic.
  function Distance(head: u32, tail: u32): u32 { Wrap32(head - tail) }

  // The slot of the n-th byte when the indices count from `base`.
  function SlotOf(base: u32, n: nat): (k: nat)
    ensures k < CAPACITY
  {
    (base + n) % CAPACITY
  }

  // Indices that count from `base` keep their distance and their slots across the wrap.
  lemma FreeRunning(base: u32, n: nat, m: nat)
    requires m <= n < m + 0x1_0000_0000
    ensures Distance(Wrap32(base + n), Wrap32(base + m)) == n - m
    ensures Slot(Wrap32(base + n)) == SlotOf(base, n)
  {
    SlotAcrossWrap(base + n);
    WrapDifference(base + n, base + m);
  }

  // 64 divides 2^32.
  lemma SlotAcrossWrap(x: nat)
    ensures x % 0x1_0000_0000 % CAPACITY == x % CAPACITY
  {
    var q := x / 0x1_0000_0000;
    assert x == CAPACITY * (q * 0x400_0000) + x % 0x1_0000_0000;
  }

  lemma WrapDifference(x: nat, y: nat)
    requires y <= x < y + 0x1_0000_0000
    ensures Wrap32(Wrap32(x) - Wrap32(y)) == x - y
  {
  }

  // Unread bytes of a ring with room sit in slots other than the next one.
  lemma SlotsApart(base: u32, i: nat, n: nat)
    requires i < n < i + CAPACITY
    ensures SlotOf(base, i) != SlotOf(base, n)
  {
  }

  // Bytes m .. of the history are in their slots.
  ghost predicate Stored(buf: seq<u8>, base: u32, history: seq<u8>, m: nat)
    requires |buf| == CAPACITY
  {
    forall i | m <= i < |history| :: buf[SlotOf(base, i)] == history[i]
  }

  lemma StoreApart(buf: seq<u8>, base: u32, history: seq<u8>, m: nat, b: u8)
    requires |buf| == CAPACITY && Stored(buf, base, history, m) && |history| < m + CAPACITY
    ensures Stored(buf[SlotOf(base, |history|) := b], base, history, m)
  {
    forall i | m <= i < |history|
      ensures SlotOf(base, i) != SlotOf(base, |history|)
    {
      SlotsApart(base, i, |history|);
    }
  }

  lemma StoredSnoc(buf: seq<u8>, base: u32, history: seq<u8>, m: nat, b: u8)
    requires |buf| == CAPACITY && Stored(buf, base, history, m) && buf[SlotOf(base, |history|)] == b
    ensures Stored(buf, base, history + [b], m)
  {
  }

  // The buffer used from one context. `history` is every byte ever put, the first `got` of
  // which were taken out again.
  class RingBuffer {
    const buf: array<u8>
    var head: u32
    var tail: u32
    ghost var history: seq<u8>
    ghost var got: nat

    ghost predicate Valid()
      reads this, buf
    {
      && buf.Length == CAPACITY
      && got <= |history| <= got + CAPACITY
      && head == Wrap32(0 + |history|) && tail == Wrap32(0 + got)
      && Stored(buf[..], 0, history, got)
    }

    // The bytes put and not yet got, oldest first.
    ghost function Contents(): seq<u8>
      reads this, buf
      requires Valid()
    {
      history[got..]
    }

    constructor ()
      ensures Valid() && fresh(buf) && Contents() == []
    {
      buf := new u8[CAPACITY](_ => 0);
      head, tail, history, got := 0, 0, [], 0;
    }

    method Count() returns (n: u32)
      requires Valid()
      ensures n == |Contents()| <= 64
    {
      n := Wrap32(head - tail);
      FreeRunning(0, |history|, got);
    }

    method Empty() returns (b: bool)
      requires Valid()
      ensures b <==> Contents() == []
    {
      var n := Count();
      b := n == 0;
    }

    method Full() returns (b: bool)
      requires Valid()
      ensures b <==> |Contents()| == 64
    {
      var n := Count();
      b := n >= CAPACITY;
    }

    method Put(b: u8) returns (ok: bool)
      requires Valid()
      modifies this`head, this`history, buf
      ensures Valid()
      ensures ok <==> old(|Contents()|) < 64
      ensures Contents() == if ok then old(Contents()) + [b] else old(Contents())
    {
      FreeRunning(0, |history|, got);
      var h: int := head;
      if Wrap32(h - tail) >= CAPACITY {
        return false;
      }
      StoreApart(buf[..], 0, history, got, b);
      buf[Slot(h)] := b;
      StoredSnoc(buf[..], 0, history, got, b);
      WrapSum(|history|, 1);
      head := Wrap32(h + 1);
      history := history + [b];
      return true;
    }

    method Get() returns (ok: bool, out: u8)
      requires Valid()
      modifies this`tail, this`got
      ensures Valid()
      ensures ok <==> old(Contents()) != []
      ensures ok ==> out == old(Contents())[0] && Contents() == old(Contents())[1..]
      ensures !ok ==> Contents() == old(Contents())
    {
      FreeRunning(0, |history|, got);
      FreeRunning(0, got, got);
      var t: int := tail;
      if head == t {
        return false, 0;
      }
      out := buf[Slot(t)];
      WrapSum(got, 1);
      tail := Wrap32(t + 1);
      got := got + 1;
      ok := true;
    }
  }
}
