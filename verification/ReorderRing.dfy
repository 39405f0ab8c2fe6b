/** The circular reorder buffer as a representation of the reference window: the slot of sequence
    number n is n modulo the buffer length (`seq & index_mask` for a power-of-two length). */
module ReorderRing {
  import opened SeqNo
  import opened ReorderWindow

  /** struct rx_ba_pkt; `bufs` is the chain from skb to skb_last, `count` is msdu_num. */
  datatype Slot = Slot(bufs: seq<Buf>, pnL: nat, pnH: nat, seq12: nat, cipher: nat, last: bool, count: nat)

  /** A slot cleared by memset. */
  const EMPTY: Slot := Slot([], 0, 0, 0, 0, false, 0)

  function SlotOf(n: nat, m: Mpdu): Slot {
    Slot(m.bufs, m.pnL, m.pnH, Wrap(n), m.cipher, m.last, m.count)
  }

  /** The sequence number from start on that a slot stands for. */
  function KeyAt(i: nat, start: nat, len: nat): nat
    requires len > 0
  {
    start + (i - start) % len
  }

  function Cell(held: map<nat, Mpdu>, n: nat): Slot {
    if n in held then SlotOf(n, held[n]) else EMPTY
  }

  /** The slots hold exactly the waiting MPDUs, each at its own place; every other slot is zero. */
  ghost predicate Rep(slots: seq<Slot>, start: nat, held: map<nat, Mpdu>) {
    && |slots| > 0
    && (forall n :: n in held ==> start <= n < start + |slots| && 0 < held[n].count < MSDU_NUM_SPACE)
    && (forall i :: 0 <= i < |slots| ==> slots[i] == Cell(held, KeyAt(i, start, |slots|)))
  }

  /** The lengths get_index_size yields for a window of at most 2048: powers of two up to 4096. */
  predicate RingLength(len: nat) {
    || len == 64 || len == 128 || len == 256 || len == 512
    || len == 1024 || len == 2048 || len == 4096
  }

  lemma EmptyRep(slots: seq<Slot>, start: nat)
    requires |slots| > 0 && forall i :: 0 <= i < |slots| ==> slots[i] == EMPTY
    ensures Rep(slots, start, map[])
  {
  }

  // ----- modular arithmetic

  lemma MultipleIsFar(d: int, len: nat)
    ensures d >= 1 ==> d * len >= len
    ensures d <= -1 ==> d * len <= -(len as int)
  {
  }

  lemma ModIs(x: int, len: nat, q: int, r: nat)
    requires r < len && x == q * len + r
    ensures x % len == r
  {
    var d := q - x / len;
    assert d * len == x % len - r;
    MultipleIsFar(d, len);
  }

  lemma KeyOfSlot(n: nat, start: nat, len: nat)
    requires len > 0 && start <= n < start + len
    ensures 0 <= n % len < len && KeyAt(n % len, start, len) == n
  {
    var q := n / len;
    assert n % len - start == -q * len + (n - start);
    ModIs(n % len - start, len, -q, n - start);
  }

  lemma KeyAfterAdvance(i: nat, start: nat, len: nat)
    requires i < len
    ensures i != start % len ==> KeyAt(i, start + 1, len) == KeyAt(i, start, len)
    ensures i == start % len ==> KeyAt(i, start, len) == start && KeyAt(i, start + 1, len) == start + len
  {
    var k := (i - start) % len;
    var q := (i - start) / len;
    assert i - start == q * len + k;
    if k == 0 {
      assert start == -q * len + i;
      ModIs(start, len, -q, i);
      assert i - (start + 1) == (q - 1) * len + (len - 1);
      ModIs(i - (start + 1), len, q - 1, len - 1);
    } else {
      assert i - (start + 1) == q * len + (k - 1);
      ModIs(i - (start + 1), len, q, k - 1);
      if i == start % len { KeyOfSlot(start, start, len); }
    }
  }

  lemma RingDivides(len: nat)
    requires RingLength(len)
    ensures SEQ_SPACE % len == 0 && SEQ_SPACE / len * len == SEQ_SPACE
  {
    assert SEQ_SPACE % 64 == 0 && SEQ_SPACE % 128 == 0 && SEQ_SPACE % 256 == 0 && SEQ_SPACE % 512 == 0;
    assert SEQ_SPACE % 1024 == 0 && SEQ_SPACE % 2048 == 0 && SEQ_SPACE % 4096 == 0;
  }

  /** Reducing to twelve bits first does not change the slot when the length divides 4096. */
  lemma SlotOfWrapped(s: nat, n: nat, len: nat)
    requires RingLength(len) && Wrap(s) == Wrap(n)
    ensures s % len == n % len
  {
    SlotOfResidue(s, len);
    SlotOfResidue(n, len);
  }

  lemma SlotOfResidue(n: nat, len: nat)
    requires RingLength(len)
    ensures n % len == Wrap(n) % len
  {
    RingDivides(len);
    var k, q, r := SEQ_SPACE / len, n / SEQ_SPACE, Wrap(n);
    Multiples(q, k, r / len, len);
    ModIs(n, len, q * k + r / len, r % len);
  }

  lemma Multiples(q: int, k: int, t: int, len: int)
    ensures q * (k * len) + t * len == (q * k + t) * len
  {
  }

  // ----- what the buffer operations do to the representation

  lemma Lookup(slots: seq<Slot>, start: nat, held: map<nat, Mpdu>, n: nat)
    requires Rep(slots, start, held) && start <= n < start + |slots|
    ensures 0 <= n % |slots| < |slots| && slots[n % |slots|] == Cell(held, n)
  {
    KeyOfSlot(n, start, |slots|);
  }

  lemma Put(slots: seq<Slot>, start: nat, held: map<nat, Mpdu>, n: nat, m: Mpdu)
    requires Rep(slots, start, held) && start <= n < start + |slots| && 0 < m.count < MSDU_NUM_SPACE
    ensures 0 <= n % |slots| < |slots| && Rep(slots[n % |slots| := SlotOf(n, m)], start, held[n := m])
  {
    var len := |slots|;
    KeyOfSlot(n, start, len);
    forall i | 0 <= i < len && i != n % len
      ensures KeyAt(i, start, len) != n
    {
      if KeyAt(i, start, len) == n { SlotOfKey(i, start, len); }
    }
  }

  lemma SlotOfKey(i: nat, start: nat, len: nat)
    requires i < len
    ensures KeyAt(i, start, len) % len == i
  {
    var q := (i - start) / len;
    assert KeyAt(i, start, len) == -q * len + i;
    ModIs(KeyAt(i, start, len), len, -q, i);
  }

  /** Clearing the slot at the window start and stepping over it. */
  lemma Clear(slots: seq<Slot>, start: nat, held: map<nat, Mpdu>)
    requires Rep(slots, start, held)
    ensures 0 <= start % |slots| < |slots|
    ensures Rep(slots[start % |slots| := EMPTY], start + 1, held - {start})
    ensures start !in held ==> Rep(slots, start + 1, held)
  {
    var len := |slots|;
    Lookup(slots, start, held, start);
    var slots', held' := slots[start % len := EMPTY], held - {start};
    forall i | 0 <= i < len
      ensures slots'[i] == Cell(held', KeyAt(i, start + 1, len))
    {
      KeyAfterAdvance(i, start, len);
    }
    if start !in held {
      assert slots' == slots && held' == held;
    }
  }

  // ----- occupancy

  function Occupied(slots: seq<Slot>): (k: nat)
    ensures k <= |slots|
  {
    if slots == [] then 0
    else (if slots[0].count != 0 then 1 else 0) + Occupied(slots[1..])
  }

  lemma {:induction false} OccupiedFrom(slots: seq<Slot>, start: nat, held: map<nat, Mpdu>, from: nat, keys: set<nat>)
    requires Rep(slots, start, held) && from <= |slots|
    requires forall n :: n in keys <==> n in held && n % |slots| >= from
    ensures Occupied(slots[from..]) == |keys|
    decreases |slots| - from
  {
    var len := |slots|;
    if from == len {
      forall n ensures n !in keys { if n in held { KeyOfSlot(n, start, len); } }
      assert keys == {};
    } else {
      var k := KeyAt(from, start, len);
      SlotOfKey(from, start, len);
      forall n | n in held && n % len == from ensures n == k { KeyOfSlot(n, start, len); }
      OccupiedFrom(slots, start, held, from + 1, keys - {k});
      assert slots[from..][1..] == slots[from + 1..];
      assert slots[from] == Cell(held, k);
      assert (slots[from].count != 0) <==> k in keys;
    }
  }

  /** As many slots are occupied as MPDUs are waiting. */
  lemma OccupiedCount(slots: seq<Slot>, start: nat, held: map<nat, Mpdu>)
    requires Rep(slots, start, held)
    ensures Occupied(slots) == |held| <= |slots|
  {
    forall n | n in held ensures n % |slots| >= 0 { KeyOfSlot(n, start, |slots|); }
    OccupiedFrom(slots, start, held, 0, held.Keys);
    assert slots[0..] == slots;
  }

  // ----- flushing

  function SlotBufs(slots: seq<Slot>): seq<Buf> {
    if slots == [] then [] else slots[0].bufs + SlotBufs(slots[1..])
  }

  lemma {:induction false} SlotBufsClear(slots: seq<Slot>, i: nat)
    requires i < |slots|
    ensures multiset(SlotBufs(slots)) == multiset(slots[i].bufs) + multiset(SlotBufs(slots[i := EMPTY]))
  {
    var cleared := slots[i := EMPTY];
    if i == 0 {
      assert cleared[1..] == slots[1..];
    } else {
      SlotBufsClear(slots[1..], i - 1);
      assert cleared[1..] == slots[1..][i - 1 := EMPTY];
    }
  }

  lemma SlotBufsStep(slots: seq<Slot>, i: nat)
    requires i < |slots|
    ensures multiset(SlotBufs(slots[i..])) == multiset(slots[i].bufs) + multiset(SlotBufs(slots[i + 1..]))
  {
    assert slots[i..][1..] == slots[i + 1..];
  }

  lemma {:induction false} NoSlotBufs(slots: seq<Slot>)
    requires forall i :: 0 <= i < |slots| ==> slots[i].bufs == []
    ensures SlotBufs(slots) == []
  {
    if slots != [] { NoSlotBufs(slots[1..]); }
  }

  /** Flushing all slots frees exactly the waiting buffers. */
  lemma {:induction false} SlotBufsAreWaiting(slots: seq<Slot>, start: nat, held: map<nat, Mpdu>, end: nat)
    requires Rep(slots, start, held) && forall n :: n in held ==> n < end
    ensures multiset(SlotBufs(slots)) == HeldBufs(held, start, end)
    decreases end - start
  {
    if start >= end {
      NoSlotBufs(slots);
    } else {
      var i := start % |slots|;
      Lookup(slots, start, held, start);
      Clear(slots, start, held);
      SlotBufsClear(slots, i);
      SlotBufsAreWaiting(slots[i := EMPTY], start + 1, held - {start}, end);
      HeldBufsAbove(held, held - {start}, start + 1, end);
      assert multiset(slots[i].bufs) == BufsAt(held, start);
    }
  }

  lemma {:induction false} HeldBufsAbove(a: map<nat, Mpdu>, b: map<nat, Mpdu>, lo: nat, hi: nat)
    requires forall n :: lo <= n < hi ==> (n in a <==> n in b) && (n in a ==> a[n] == b[n])
    ensures HeldBufs(a, lo, hi) == HeldBufs(b, lo, hi)
    decreases hi - lo
  {
    if lo < hi {
      assert BufsAt(a, lo) == BufsAt(b, lo);
      HeldBufsAbove(a, b, lo + 1, hi);
    }
  }
}
