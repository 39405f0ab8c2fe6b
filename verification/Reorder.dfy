/** One block-ack session (struct rx_ba_node with its rx_ba_node_desc) as the driver keeps it: a
    twelve-bit window over a circular buffer, updated in place. The ghost field `ref` is the
    reference window that every method is proved to follow. */
module Reorder {
  import opened Common
  import opened SeqNo
  import opened ReorderWindow
  import opened ReorderRing
  import opened ReorderFacts
  import opened ReorderTail

  const MIN_INDEX_SIZE := 64

  /** For the lengths in use, masking with length - 1 is the remainder that the model takes. */
  lemma MaskIsRemainder(x: bv16)
    ensures x & 63 == x % 64 && x & 127 == x % 128 && x & 255 == x % 256 && x & 511 == x % 512
    ensures x & 1023 == x % 1024 && x & 2047 == x % 2048 && x & 4095 == x % 4096
  {
  }

  /** The first doubling of `from` that is at least `size`. */
  function Doubled(from: nat, size: nat): nat
    requires from > 0
    decreases size - from
  {
    if size > from then Doubled(2 * from, size) else from
  }

  /** The number of slots for a window of this size. */
  function IndexSize(winSize: nat): nat {
    Doubled(MIN_INDEX_SIZE, 2 * winSize)
  }

  /** get_index_size, for any argument that 2 * win_size can be: the least doubling of 64 that is
      large enough. Up to 4096 it divides the sequence space. */
  method GetIndexSize(size: nat) returns (indexSize: nat)
    requires size <= 2 * 0xFFFF
    ensures indexSize == Doubled(MIN_INDEX_SIZE, size)
    ensures MIN_INDEX_SIZE <= indexSize && size <= indexSize < 0x1_0000_0000
    ensures indexSize == MIN_INDEX_SIZE || indexSize < 2 * size
    ensures size <= SEQ_SPACE ==> RingLength(indexSize)
  {
    indexSize := MIN_INDEX_SIZE;
    while size > indexSize
      invariant MIN_INDEX_SIZE <= indexSize && Doubled(indexSize, size) == Doubled(MIN_INDEX_SIZE, size)
      invariant indexSize == MIN_INDEX_SIZE || indexSize < 2 * size
      invariant size <= SEQ_SPACE ==> RingLength(indexSize)
    {
      indexSize := 2 * indexSize;
    }
  }

  /** The order tests of reorder_msdu decide where an unambiguous number lies. */
  lemma WindowTests(start: int, size: nat, n: int)
    requires 1 <= size <= HALF_SPACE && Unambiguous(start, n)
    ensures Geq(Wrap(n), Wrap(start)) <==> n >= start
    ensures n >= start ==> (Leq(Wrap(n), Wrap(start + size - 1)) <==> n < start + size)
    ensures Wrap(n) == Wrap(start) <==> n == start
  {
    LeqDecidesOrder(start, n);
    LeqDecidesOrder(n, start + size - 1);
    if n >= start { WrapDistance(start, n); } else { WrapDistance(n, start); }
  }

  /** The test against win_limit tells numbers inside the window from numbers beyond it. */
  ghost predicate LimitDecides(start: nat, size: nat) {
    forall n: nat :: n >= start && Unambiguous(start, n) ==>
      (Leq(Wrap(n), Wrap(start + size - 1)) <==> n < start + size)
  }

  /** It does so wherever the window starts if and only if the size is between 1 and 2048. */
  lemma WindowSizesExactly(size: nat)
    requires size <= 0xFFFF
    ensures (forall start: nat :: LimitDecides(start, size)) <==> 1 <= size <= HALF_SPACE
  {
    if 1 <= size <= HALF_SPACE {
      forall start: nat
        ensures LimitDecides(start, size)
      {
        forall n: nat | n >= start && Unambiguous(start, n)
          ensures Leq(Wrap(n), Wrap(start + size - 1)) <==> n < start + size
        {
          WindowTests(start, size, n);
        }
      }
    } else {
      var (start, n) := Misjudged(size);
      assert !LimitDecides(start, size) by {
        assert Unambiguous(start, n) && (Leq(Wrap(n), Wrap(start + size - 1)) <==> n >= start + size);
      }
    }
  }

  /** A window start and a number that the test against win_limit gets wrong. */
  function Misjudged(size: nat): (p: (nat, nat))
    requires size <= 0xFFFF && !(1 <= size <= HALF_SPACE)
    ensures p.1 >= p.0 && Unambiguous(p.0, p.1)
    ensures Leq(Wrap(p.1), Wrap(p.0 + size - 1)) <==> p.1 >= p.0 + size
  {
    if size == 0 then (1, 2048)
    else
      var m := (size - 1) % SEQ_SPACE;
      if m >= HALF_SPACE then (0, 0) else if m < HALF_SPACE - 1 then (0, m + 1) else (2048, 4096)
  }

  /** kzalloc */
  function Zeroed(i: nat): Slot {
    EMPTY
  }

  /** The unbounded number that a session opened at twelve-bit `start` begins with: one space up, so
      that the numbers before it are natural too. */
  function Origin(start: Seq12): (n: nat)
    ensures n >= HALF_SPACE
  {
    SEQ_SPACE + start
  }

  lemma OriginWraps(start: Seq12, size: nat)
    ensures Wrap(Origin(start)) == start
    ensures Wrap(Origin(start) + size - 1) == Add(start, size - 1)
    ensures Wrap(Origin(start) - 1) == Sub(start, 1)
  {
    assert Origin(start) == 1 * SEQ_SPACE + start;
    AddWraps(Origin(start), size - 1);
    AddWraps(Origin(start), 1);
  }

  lemma OpenedSteady(start: nat, size: nat)
    requires 1 <= size <= HALF_SPACE
    ensures var r := Opened(start, size).(active := false);
            Legal(r) && Steady(r) && Tail(r) == start - 1
  {
    TailRange(Opened(start, size).(active := false));
  }

  class Session {
    var winStart: Seq12
    var winLimit: Seq12
    var winTail: Seq12
    var winSize: nat
    var indexSize: nat       // index_mask + 1
    var buffCnt: nat
    var replay: Replay
    const buffer: array<Slot>

    var active: bool
    var armed: bool          // the reorder timer is pending
    var timeoutCnt: nat
    var delbasSent: nat      // DELBA requests handed to the firmware

    var delivered: seq<Buf>  // appended to the interface's skb list
    var freed: seq<Buf>

    ghost var ref: Ref

    /** The buffer and the counters represent `ref`, window marks aside. */
    ghost predicate Core()
      reads this`winSize, this`indexSize, this`buffCnt, this`replay, this`active, this`timeoutCnt, this`delbasSent
      reads this`delivered, this`freed, this`ref, buffer
    {
      && indexSize == IndexSize(winSize)
      && RingLength(indexSize) && 2 * winSize <= indexSize <= buffer.Length
      && Legal(ref) && ref.size == winSize
      && Rep(buffer[..indexSize], ref.start, ref.held) && buffCnt == |ref.held|
      && replay == ref.replay && delivered == ref.delivered && freed == ref.freed
      && active == ref.active && timeoutCnt == ref.timeouts && delbasSent == ref.delbas
    }

    ghost predicate Marked()
      reads this
    {
      winStart == Wrap(ref.start) && winLimit == Wrap(ref.start + winSize - 1)
    }

    /** What holds between two steps, of an active or inactive session. */
    ghost predicate Valid()
      reads this, buffer
    {
      Core() && Marked() && Steady(ref) && ref.start >= HALF_SPACE
    }

    /** The timer is pending exactly when something waits. */
    ghost predicate TimerOk()
      reads this
    {
      armed <==> ref.held != map[]
    }

    ghost predicate TailOk()
      reads this
    {
      winTail == Wrap(Tail(ref))
    }

    /** What the invariant says of the twelve-bit fields and the slots themselves. */
    lemma SlotsInWindow()
      requires Valid()
      ensures winLimit == Add(winStart, winSize - 1) && 0 < indexSize <= buffer.Length
      ensures buffCnt == Occupied(buffer[..indexSize])
      ensures !buffer[winStart % indexSize].last
      ensures forall i :: 0 <= i < indexSize && buffer[i].count == 0 ==> buffer[i] == EMPTY
      ensures forall i :: 0 <= i < indexSize && buffer[i].count != 0 ==>
                && buffer[i].seq12 < SEQ_SPACE && buffer[i].seq12 % indexSize == i
                && (buffer[i].seq12 - winStart) % SEQ_SPACE < winSize
    {
      hide Core, Wrap, Add, Occupied;
      CountsWaiting();
      CountsSlots();
      AddWraps(ref.start, winSize - 1);
      SlotShows(winStart, ref.start);
      forall i | 0 <= i < indexSize
        ensures buffer[i].count == 0 ==> buffer[i] == EMPTY
        ensures buffer[i].count != 0 ==>
          && buffer[i].seq12 < SEQ_SPACE && buffer[i].seq12 % indexSize == i
          && (buffer[i].seq12 - winStart) % SEQ_SPACE < winSize
      {
        SlotInWindow(i);
      }
    }

    lemma CountsSlots()
      requires Core()
      ensures buffCnt == Occupied(buffer[..indexSize])
    {
      OccupiedCount(buffer[..indexSize], ref.start, ref.held);
    }

    lemma SlotInWindow(i: nat)
      requires Core() && winStart == Wrap(ref.start) && i < indexSize
      ensures buffer[i].count == 0 ==> buffer[i] == EMPTY
      ensures buffer[i].count != 0 ==>
        && buffer[i].seq12 < SEQ_SPACE && buffer[i].seq12 % indexSize == i
        && (buffer[i].seq12 - winStart) % SEQ_SPACE < winSize
    {
      var k := KeyAt(i, ref.start, indexSize);
      assert buffer[i] == buffer[..indexSize][i] == Cell(ref.held, k);
      if k in ref.held {
        SlotOfKey(i, ref.start, indexSize);
        SlotOfResidue(k, indexSize);
        WrapDistance(ref.start, k);
      }
    }

    /** wlan_addba_event on a node just created (create_ba_node, init_ba_node, set_ba_node_desc). */
    constructor (start: Seq12, size: nat)
      requires 1 <= size <= HALF_SPACE
      ensures Valid() && TailOk() && TimerOk() && !armed && fresh(buffer)
      ensures ref == Opened(Origin(start), size).(active := false) && buffer.Length == indexSize
    {
      var length := GetIndexSize(2 * size);
      winSize, indexSize := size, length;
      winStart := start;
      winLimit := Add(start, size - 1);
      winTail := Sub(start, 1);
      buffCnt := 0;
      replay := Replay(0, 0, false);
      active, armed, timeoutCnt, delbasSent := false, false, 0, 0;
      delivered, freed := [], [];
      buffer := new Slot[length](Zeroed);
      ref := Opened(Origin(start), size).(active := false);
      new;
      hide Valid, TailOk, Add, Sub, RingLength, Origin, Doubled;
      JustCreated(start, size);
    }

    lemma JustCreated(start: Seq12, size: nat)
      requires 1 <= size == winSize <= HALF_SPACE && RingLength(indexSize) && 2 * size <= indexSize
      requires indexSize == IndexSize(size) && indexSize == buffer.Length
      requires forall i :: 0 <= i < indexSize ==> buffer[i] == EMPTY
      requires winStart == start && winLimit == Add(start, size - 1) && winTail == Sub(start, 1) && buffCnt == 0
      requires replay == Replay(0, 0, false) && delivered == [] && freed == []
      requires !active && timeoutCnt == 0 && delbasSent == 0
      requires ref == Opened(Origin(start), size).(active := false)
      ensures Valid() && TailOk()
    {
      EmptyRep(buffer[..indexSize], ref.start);
      OriginWraps(start, size);
      OpenedSteady(Origin(start), size);
      assert Core() by {
        hide Rep, Wrap, Add, Sub;
      }
      hide Rep, Wrap, Add, Sub, Tail, Steady;
    }

    /** wlan_addba_event on a node that exists: size, marks and counter start afresh, the buffer is the
        one the node was created with and its slots are left alone. The session then is the one asked
        for if and only if the buffer is large enough, the slots in use are empty and no retry is
        counted; for the size it had, if and only if nothing was waiting. */
    method WlanAddbaAgain(start: Seq12, size: nat)
      requires Valid() && 1 <= size <= HALF_SPACE
      modifies this`active, this`winSize, this`indexSize, this`winStart, this`winLimit, this`winTail
      modifies this`buffCnt, this`ref
      ensures winSize == size && indexSize == IndexSize(size)
      ensures ref == old(ref).(start := Origin(start), size := size, held := map[], active := false)
      ensures Valid() <==>
        && IndexSize(size) <= buffer.Length && timeoutCnt == 0
        && forall i :: 0 <= i < IndexSize(size) ==> buffer[i] == EMPTY
      ensures size == old(winSize) ==> (Valid() <==> old(ref.held) == map[])
      ensures TailOk() && Marked() && buffCnt == 0
    {
      hide Valid, Marked, TailOk, Rep, Origin, RingLength, Legal, Doubled, Steady;
      var length := GetIndexSize(2 * size);
      ghost var start0, held := ref.start, ref.held;
      CoreFields();
      SlotsAreEmpty(buffer[..indexSize], ref.start, held, Origin(start));
      Restart(start, size, length);
      LeftOvers(start, size);
    }

    /** The locked part of wlan_addba_event, set_ba_node_desc included. */
    method Restart(start: Seq12, size: nat, length: nat)
      modifies this`active, this`winSize, this`indexSize, this`winStart, this`winLimit, this`winTail
      modifies this`buffCnt, this`ref
      ensures !active && winStart == Wrap(Origin(start)) && winLimit == Wrap(Origin(start) + size - 1)
      ensures winTail == Wrap(Origin(start) - 1) && buffCnt == 0 && winSize == size && indexSize == length
      ensures ref == old(ref).(start := Origin(start), size := size, held := map[], active := false)
    {
      active := false;
      winSize := size;
      winStart := start;
      winLimit := Add(start, size - 1);
      winTail := Sub(start, 1);
      indexSize := length;
      buffCnt := 0;
      OriginWraps(start, size);
      ref := ref.(start := Origin(start), size := size, held := map[], active := false);
    }

    lemma CoreFields()
      requires Valid()
      ensures indexSize == IndexSize(winSize)
      ensures RingLength(indexSize) && indexSize <= buffer.Length && Rep(buffer[..indexSize], ref.start, ref.held)
      ensures replay == ref.replay && timeoutCnt == ref.timeouts && delbasSent == ref.delbas
      ensures delivered == ref.delivered && freed == ref.freed
      ensures ref.held == map[] ==> ref.timeouts == 0
    {
    }

    /** An empty window over the slots that are there. */
    lemma LeftOvers(first: Seq12, size: nat)
      requires 1 <= size == winSize == ref.size <= HALF_SPACE && ref.held == map[] && buffCnt == 0
      requires indexSize == IndexSize(size) && RingLength(indexSize) && 2 * size <= indexSize
      requires replay == ref.replay && delivered == ref.delivered && freed == ref.freed
      requires active == ref.active && timeoutCnt == ref.timeouts && delbasSent == ref.delbas
      requires ref.start == Origin(first)
      requires winStart == Wrap(ref.start) && winLimit == Wrap(ref.start + winSize - 1)
      requires winTail == Wrap(ref.start - 1)
      ensures Valid() <==>
        && indexSize <= buffer.Length && timeoutCnt == 0
        && forall i :: 0 <= i < indexSize ==> buffer[i] == EMPTY
      ensures TailOk() && Marked()
    {
      EmptyIsSteady(ref);
      hide Core, Tail, Legal, RingLength, Wrap, Origin, Rep, Doubled;
      LeftCore();
    }

    lemma LeftCore()
      requires 1 <= winSize == ref.size && Legal(ref) && ref.held == map[] && buffCnt == 0
      requires indexSize == IndexSize(winSize) && RingLength(indexSize) && 2 * winSize <= indexSize
      requires replay == ref.replay && delivered == ref.delivered && freed == ref.freed
      requires active == ref.active && timeoutCnt == ref.timeouts && delbasSent == ref.delbas
      ensures Core() <==>
        indexSize <= buffer.Length && forall i :: 0 <= i < indexSize ==> buffer[i] == EMPTY
    {
      if indexSize <= buffer.Length {
        EmptyRepExactly(buffer[..indexSize], ref.start);
      }
      hide Legal, RingLength, Doubled, Rep;
    }

    /** sprdwl_active_ba_node: whatever the node holds, it becomes active as it is. */
    method Activate()
      modifies this`active, this`ref
      ensures active && ref == old(ref).(active := true)
      ensures old(active == ref.active) ==> (Valid() <==> old(Valid()))
      ensures (TailOk() <==> old(TailOk())) && (TimerOk() <==> old(TimerOk()))
    {
      hide Rep;
      active := true;
      ref := ref.(active := true);
      TailDependsOnHeld(old(ref), ref);
    }

    /** The slot that a sequence number selects shows what the reference holds there. */
    lemma SlotShows(seq12: nat, n: nat)
      requires Core() && Wrap(seq12) == Wrap(n) && ref.start <= n < ref.start + indexSize
      ensures 0 <= seq12 % indexSize < indexSize <= buffer.Length
      ensures seq12 % indexSize == n % indexSize
      ensures buffer[seq12 % indexSize] == Cell(ref.held, n)
    {
      SlotOfWrapped(seq12, n, indexSize);
      Lookup(buffer[..indexSize], ref.start, ref.held, n);
    }

    /** The part send_order_msdu and send_reorder_skb share: a chain of buffers is delivered or, when
        the replay check fails, freed; without buffers nothing is checked. */
    method HandUp(pnL: nat, pnH: nat, cipher: nat, bufs: seq<Buf>, ghost n: nat, ghost m: Mpdu)
      requires m.pnL == pnL && m.pnH == pnH && m.cipher == cipher && m.bufs == bufs
      requires replay == ref.replay && delivered == ref.delivered && freed == ref.freed
      modifies this`replay, this`delivered, this`freed
      ensures var e := Emit(ref, n, m);
              replay == e.replay && delivered == e.delivered && freed == e.freed
    {
      if bufs != [] {
        var (ok, replay') := Check(replay, pnL, pnH, cipher);
        replay := replay';
        if ok {
          delivered := delivered + bufs;
        } else {
          freed := freed + bufs;
        }
      }
    }

    /** send_reorder_skb for the slot at the window start, with the buff_cnt decrement that follows
        both of its calls. */
    method SendReorderSkb(index: nat)
      requires Core() && ref.start in ref.held && index == ref.start % indexSize < indexSize
      modifies this`replay, this`delivered, this`freed, this`buffCnt, this`ref, buffer
      ensures Core() && ref == Advance(old(ref)) && buffCnt == old(buffCnt) - 1
    {
      SlotShown(buffer[..indexSize], ref);
      hide Rep, Legal, RingLength, Advance, Emit;
      var pkt := buffer[index];
      HandUp(pkt.pnL, pkt.pnH, pkt.cipher, pkt.bufs, ref.start, ref.held[ref.start]);
      buffer[index] := EMPTY;
      buffCnt := buffCnt - 1;
      ref := Advance(ref);
      assert buffer[..indexSize] == old(buffer[..indexSize])[index := EMPTY];
    }

    /** Nothing happens in the buffer when the walk passes an empty slot. */
    ghost method SkipHole()
      requires Core() && ref.start !in ref.held
      modifies this`ref
      ensures Core() && ref == Advance(old(ref))
    {
      hide Rep;
      Clear(buffer[..indexSize], ref.start, ref.held);
      AdvanceDrains(ref);
      DrainedLegal(ref, Advance(ref));
      ref := Advance(ref);
    }

    /** send_msdu_in_order: seqNum is sixteen bits wide, runs on past 4095 and is masked once at the
        end. */
    method SendMsduInOrder() returns (seqNum: nat)
      requires Core() && winStart == Wrap(ref.start)
      modifies this`replay, this`delivered, this`freed, this`buffCnt, this`ref, buffer
      ensures Core() && ref == InOrder(old(ref)) && seqNum == Wrap(ref.start)
    {
      hide Rep, Within, Wrap, Add, Sub;
      seqNum := winStart;
      OccupiedCount(buffer[..indexSize], ref.start, ref.held);
      AddWraps(ref.start, 0);
      while true
        invariant Core() && InOrder(ref) == InOrder(old(ref))
        invariant Wrap(seqNum) == Wrap(ref.start)
        invariant seqNum + buffCnt == winStart + old(buffCnt) < 0x1_0000
        decreases buffCnt
      {
        SlotShows(seqNum, ref.start);
        var index := seqNum % indexSize;
        if buffCnt == 0 || !buffer[index].last {
          break;
        }
        WrapNext(seqNum, ref.start);
        SendReorderSkb(index);
        seqNum := seqNum + 1;
      }
      assert ref.held == map[] || !Complete(ref, ref.start);
      seqNum := Wrap(seqNum);
    }

    /** send_msdu_with_gap: walks up to lastSeqno, possibly around the buffer more than once. */
    method SendMsduWithGap(lastSeqno: Seq12, ghost goal: nat)
      requires Core() && winStart == Wrap(ref.start)
      requires lastSeqno == Wrap(goal) && ref.start <= goal < ref.start + SEQ_SPACE
      modifies this`replay, this`delivered, this`freed, this`buffCnt, this`ref, buffer
      ensures Core() && ref == Gap(old(ref), goal)
    {
      hide Core, Legal, Wrap, Add, Sub;
      var seqNum: nat := winStart;
      var num := Sub(lastSeqno, seqNum);
      WrapDistance(ref.start, goal);
      AddWraps(ref.start, 0);
      while num > 0
        invariant Core() && Gap(ref, goal) == Gap(old(ref), goal)
        invariant ref.start + num == goal
        invariant Wrap(seqNum) == Wrap(ref.start) && seqNum + num < 2 * SEQ_SPACE
      {
        CountsWaiting();
        SlotShows(seqNum, ref.start);
        var index := seqNum % indexSize;
        if buffCnt > 0 && buffer[index].count != 0 {
          SendReorderSkb(index);
        } else {
          SkipHole();
        }
        WrapNext(seqNum, ref.start - 1);
        seqNum := seqNum + 1;
        num := num - 1;
      }
    }

    /** The common tail of between_seqlo_seqhi, greater_than_seqhi and ba_reorder_timeout. */
    method ReleaseInOrder()
      requires Core() && winStart == Wrap(ref.start)
      modifies this`replay, this`delivered, this`freed, this`buffCnt, this`ref, this`winStart, this`winLimit, buffer
      ensures Core() && Marked() && ref == InOrder(old(ref))
    {
      hide Core, Wrap, Add, Sub;
      CountsWaiting();
      InOrderDrains(ref);
      var next := SendMsduInOrder();
      winStart := next;
      AddWraps(ref.start, winSize - 1);
      winLimit := Add(winStart, winSize - 1);
    }

    /** greater_than_seqhi */
    method GreaterThanSeqhi(seqNum: Seq12, ghost n: nat)
      requires Core() && Marked() && seqNum == Wrap(n)
      requires ref.start + winSize <= n <= ref.start + HALF_SPACE
      modifies this`replay, this`delivered, this`freed, this`buffCnt, this`ref, this`winStart, this`winLimit, buffer
      ensures Core() && Marked() && ref == MakeRoom(old(ref), n)
    {
      hide Rep, Within, Wrap, Add, Sub;
      var posWinStart := Sub(seqNum, winSize - 1);
      ghost var goal := n - winSize + 1;
      AddWraps(n, winSize - 1);
      GapDrains(ref, goal);
      SendMsduWithGap(posWinStart, goal);
      winStart := posWinStart;
      ReleaseInOrder();
    }

    /** insert_msdu: stores or joins, or leaves everything as it was and reports failure. */
    method InsertMsdu(seqNum: Seq12, f: Frame, ghost n: nat) returns (ok: bool)
      requires Core() && seqNum == Wrap(n) && ref.start <= n < ref.start + winSize
      requires n in ref.held ==> ref.held[n].count + 1 < MSDU_NUM_SPACE
      modifies this`buffCnt, this`ref, buffer
      ensures Core() && ok == Takes(old(ref), n, f)
      ensures ref == if ok then Store(old(ref), n, f) else old(ref)
      ensures ref.start == old(ref).start && ref.size == winSize
    {
      hide Core, Takes, Legal;
      CountsWaiting();
      SlotShows(seqNum, n);
      SlotTakes(ref, n, f);
      var index := seqNum % indexSize;
      var insert := buffer[index];
      ok := true;
      if insert.count != 0 {
        if insert.seq12 == seqNum && !insert.last &&
           (Protected(insert.cipher) ==> insert.pnL == f.pnL && insert.pnH == f.pnH) {
          var joined := insert.(bufs := insert.bufs + f.Bufs(), last := f.last,
                                count := (insert.count + 1) % MSDU_NUM_SPACE);
          WriteSlot(index, joined, false, n, f);
        } else {
          ok := false;
        }
      } else {
        WriteSlot(index, Slot(f.Bufs(), f.pnL, f.pnH, seqNum, f.cipher, f.last, 1), true, n, f);
      }
    }

    /** A slot is filled or continued; a filled one is counted. */
    method WriteSlot(index: nat, slot: Slot, fill: bool, ghost n: nat, ghost f: Frame)
      requires Core() && ref.start <= n < ref.start + winSize && index == n % indexSize < indexSize <= buffer.Length
      requires var m := Store(ref, n, f).held[n]; slot == SlotOf(n, m) && 0 < m.count < MSDU_NUM_SPACE
      requires fill <==> n !in ref.held
      modifies this`buffCnt, this`ref, buffer
      ensures Core() && ref == Store(old(ref), n, f)
    {
      hide Rep;
      StoreLegal(ref, n, f);
      Put(buffer[..indexSize], ref.start, ref.held, n, Store(ref, n, f).held[n]);
      buffer[index] := slot;
      assert buffer[..indexSize] == old(buffer[..indexSize])[index := slot];
      if fill {
        buffCnt := buffCnt + 1;
      }
      ref := Store(ref, n, f);
    }

    /** reorder_msdu: the frame is dropped (and its buffer freed) when it is old or a duplicate. */
    method ReorderMsdu(seqNum: Seq12, f: Frame, ghost n: nat) returns (ok: bool)
      requires Valid() && Admissible(ref, n, f) && seqNum == Wrap(n)
      modifies this`replay, this`delivered, this`freed, this`buffCnt, this`ref
      modifies this`winStart, this`winLimit, this`winTail, buffer
      ensures Core() && Marked()
      ensures var room := if n >= old(ref).start then MakeRoom(old(ref), n) else old(ref);
              && ok == Takes(room, n, f)
              && ref == if ok then Store(room, n, f) else room.(freed := room.freed + f.Bufs())
      ensures winTail == if ok then Moved(old(winTail), seqNum) else old(winTail)
    {
      hide Core, Wrap, Add, Sub, InOrder, Gap, Leq;
      CountsWaiting();
      ok := false;
      WindowTests(ref.start, winSize, n);
      if Geq(seqNum, winStart) {
        RoomDrains(ref, n);
        if !Leq(seqNum, winLimit) {
          GreaterThanSeqhi(seqNum, n);
        }
        ok := InsertMsdu(seqNum, f, n);
        if ok && Geq(seqNum, winTail) {
          winTail := seqNum;
        }
      }
      if !ok {
        FreeFrame(f);
      }
    }

    method FreeFrame(f: Frame)
      requires Core()
      modifies this`freed, this`ref
      ensures Core() && ref == old(ref).(freed := old(ref.freed) + f.Bufs())
    {
      hide Rep;
      freed := freed + f.Bufs();
      ref := ref.(freed := ref.freed + f.Bufs());
    }

    method StopTimer()
      requires Core() && ref.held == map[]
      modifies this`armed, this`timeoutCnt, this`ref
      ensures Core() && !armed && ref == Settle(old(ref))
    {
      hide Rep;
      armed := false;
      timeoutCnt := 0;
      ref := ref.(timeouts := 0);
    }

    /** mod_reorder_timer */
    method ModReorderTimer()
      requires Core()
      modifies this`armed, this`timeoutCnt, this`ref
      ensures Core() && ref == Settle(old(ref)) && (armed <==> ref.held != map[])
    {
      hide Core;
      CountsWaiting();
      if buffCnt != 0 {
        armed := true;
      } else {
        StopTimer();
      }
    }

    lemma CountsWaiting()
      requires Core()
      ensures buffCnt == |ref.held| && (buffCnt == 0 <==> ref.held == map[])
      ensures Legal(ref) && ref.size == winSize <= indexSize <= buffer.Length && active == ref.active && indexSize > 0
      ensures delivered == ref.delivered && freed == ref.freed
    {
    }

    lemma SlotsHoldWaiting()
      requires Core()
      ensures multiset(SlotBufs(buffer[..indexSize])) == Waiting(ref)
    {
      hide SlotBufs, HeldBufs;
      SlotBufsAreWaiting(buffer[..indexSize], ref.start, ref.held, ref.start + winSize);
    }

    /** reorder_msdu_process: one received MSDU, or a filter event. The fast path for in-sequence
        traffic is invisible in the result; an inactive session passes the MSDU on at once, and fails
        on a filter event. The timer is right afterwards if it was right before, or if the frame was
        stored and something waits. */
    method ReorderMsduProcess(seqNum: Seq12, f: Frame) returns (fault: bool)
      requires Valid() && (active ==> Admissible(ref, Unwrap(ref.start, seqNum), f))
      modifies this, buffer
      ensures Valid() && (fault <==> !old(active) && f.buf.None?)
      ensures ref == OneMsdu(old(ref), Unwrap(old(ref.start), seqNum), f)
      ensures winTail == if old(active) then NextTail(old(winTail), old(ref), Unwrap(old(ref.start), seqNum), f)
                         else old(winTail)
      ensures old(TimerOk()) || (ref.taken != old(ref.taken) && ref.held != map[]) ==> TimerOk()
      ensures !old(active) ==> delivered == old(delivered) + f.Bufs() && freed == old(freed)
    {
      hide Core, Steady, NextTail, Receive;
      CountsWaiting();
      if active {
        ReorderActive(seqNum, f, Unwrap(ref.start, seqNum));
        fault := false;
      } else {
        fault := PassOn(f);
      }
    }

    /** The branches for an active session. */
    method ReorderActive(seqNum: Seq12, f: Frame, ghost n: nat)
      requires Valid() && active && Admissible(ref, n, f) && seqNum == Wrap(n)
      modifies this, buffer
      ensures Valid() && ref == Receive(old(ref), n, f)
      ensures winTail == NextTail(old(winTail), old(ref), n, f)
      ensures old(TimerOk()) || (ref.taken != old(ref.taken) && ref.held != map[]) ==> TimerOk()
    {
      hide Core, Wrap, Add, Sub, InOrder, MakeRoom, Legal;
      CountsWaiting();
      ReceiveSteady(ref, n, f);
      WindowTests(ref.start, winSize, n);
      if seqNum == winStart && buffCnt == 0 && f.last {
        SendOrderMsdu(f, n);
        return;
      }
      var oldWinStart := winStart;
      RoomFacts(ref, n, f);
      var ok := ReorderMsdu(seqNum, f, n);
      AfterReorder(ok, seqNum, f, oldWinStart, n);
    }

    /** What follows reorder_msdu: in-order release if the frame completed the MPDU at the start, and
        the timer. */
    method AfterReorder(ok: bool, seqNum: Seq12, f: Frame, oldWinStart: Seq12, ghost n: nat)
      requires Core() && Marked() && seqNum == Wrap(n)
      requires ok ==> ref.held != map[] && ref.start <= n < ref.start + winSize
      modifies this, buffer
      ensures Core() && Marked() && winTail == old(winTail)
      ensures ref == Settle(if ok && f.last && n == old(ref.start) then InOrder(old(ref)) else old(ref))
      ensures ok || ref.held == map[] ==> TimerOk()
      ensures armed == old(armed) || TimerOk()
    {
      hide Core, Wrap, InOrder, Legal;
      CountsWaiting();
      if ok {
        WrapDistance(ref.start, n);
        if f.last && seqNum == winStart {
          ReleaseInOrder();
          ModReorderTimer();
        } else if !armed || oldWinStart != winStart {
          ModReorderTimer();
        }
      } else if buffCnt == 0 {
        StopTimer();
      }
    }

    /** reorder_set_skb_list for what meets an inactive session: a chain of one buffer, or of none. The
        source then terminates the chain at its last element, which an empty chain does not have. */
    method PassOn(f: Frame) returns (fault: bool)
      requires Valid()
      modifies this`delivered, this`ref
      ensures Valid() && ref == old(ref).(delivered := old(ref.delivered) + f.Bufs())
      ensures delivered == old(delivered) + f.Bufs()
      ensures fault <==> f.buf.None?
    {
      hide Rep;
      delivered := delivered + f.Bufs();
      ref := ref.(delivered := ref.delivered + f.Bufs());
      fault := f.buf.None?;
    }

    lemma RoomFacts(r: Ref, n: nat, f: Frame)
      requires Steady(r) && Admissible(r, n, f)
      ensures var room := if n >= r.start then MakeRoom(r, n) else r;
              && (Takes(room, n, f) ==> room.start <= n < room.start + room.size)
              && (Takes(room, n, f) ==> Store(room, n, f).held != map[])
              && room.taken == r.taken
              && (n >= r.start + r.size ==> room.start != r.start && Takes(room, n, f))
              && (n < r.start + r.size ==> room == r)
    {
      if n >= r.start {
        RoomDrains(r, n);
        var room := MakeRoom(r, n);
        DrainedLegal(r, room);
        if Takes(room, n, f) { assert n in Store(room, n, f).held; }
      }
    }

    /** send_order_msdu: delivers without touching the buffer. */
    method SendOrderMsdu(f: Frame, ghost n: nat)
      requires Valid() && n == ref.start && f.last && buffCnt == 0
      modifies this`winStart, this`winLimit, this`winTail, this`replay, this`delivered, this`freed, this`ref
      ensures Valid() && ref == Receive(old(ref), n, f) && winTail == Wrap(n) && ref.held == old(ref.held)
    {
      hide Rep, Within, Wrap, Add, Sub, Receive;
      ReceiveSteady(ref, n, f);
      AddWraps(ref.start, 1);
      AddWraps(ref.start + winSize - 1, 1);
      AddWraps(ref.start + 1, 1);
      winStart := Add(winStart, 1);
      winLimit := Add(winLimit, 1);
      winTail := Sub(winStart, 1);
      HandUp(f.pnL, f.pnH, f.cipher, f.Bufs(), n, Fresh(f));
      FastPath(ref, f);
      Clear(buffer[..indexSize], ref.start, ref.held);
      ref := PassThrough(ref, f);
      assert Rep(buffer[..indexSize], ref.start, ref.held);
      assert Core();
    }

    /** wlan_filter_event: the firmware reports that a number will not arrive. It fails if and only if
        the session is inactive: there is no buffer to pass on then. */
    method WlanFilterEvent(seqNum: Seq12) returns (fault: bool)
      requires Valid() && (active ==> Admissible(ref, Unwrap(ref.start, seqNum), Frame(true, 0, 0, 0, None)))
      modifies this, buffer
      ensures Valid() && (fault <==> !old(active))
      ensures old(active) ==> ref == Receive(old(ref), Unwrap(old(ref.start), seqNum), Frame(true, 0, 0, 0, None))
      ensures old(active) ==>
        winTail == NextTail(old(winTail), old(ref), Unwrap(old(ref.start), seqNum), Frame(true, 0, 0, 0, None))
      ensures !old(active) ==> ref == old(ref) && winTail == old(winTail)
      ensures old(TimerOk()) ==> TimerOk()
    {
      fault := ReorderMsduProcess(seqNum, Frame(true, 0, 0, 0, None));
    }

    /** reset_pn, for this session */
    method RequestPnReset()
      requires Valid()
      modifies this`replay, this`ref
      ensures Valid() && ref == Step(old(ref), ResetPn) && (old(TimerOk()) ==> TimerOk())
      ensures replay == old(replay).(reset := true)
    {
      hide Rep;
      replay := replay.(reset := true);
      ref := Step(ref, ResetPn);
    }

    /** A scanned slot is complete exactly when the number is, even after the scan has lapped the
        buffer. */
    lemma ScanShows(seqno: Seq12, n: nat)
      requires Core() && seqno == Wrap(n) && ref.start <= n
      requires forall k :: ref.start <= k < n ==> !Complete(ref, k)
      ensures 0 <= seqno % indexSize < indexSize <= buffer.Length
      ensures buffer[seqno % indexSize].last <==> Complete(ref, n)
    {
      AddWraps(n, 0);
      if n < ref.start + indexSize {
        SlotShows(seqno, n);
      } else {
        var k := KeyAt(seqno % indexSize, ref.start, indexSize);
        assert !Complete(ref, k);
      }
    }

    /** get_first_seqno_in_buff terminates whatever win_tail is; `n` is the unbounded number found. */
    method GetFirstSeqnoInBuff() returns (seqno: Seq12, ghost n: nat)
      requires Core() && Marked()
      ensures n == TimerGoal(ref, winTail) && seqno == Wrap(TimerGoal(ref, winTail))
      ensures ref.start <= n <= ref.start + Reach(winStart, winTail)
    {
      hide Core, Wrap, Add, Sub, Leq, Within;
      seqno, n := winStart, ref.start;
      ghost var reach := Reach(winStart, winTail);
      ReachCounts(winStart, winTail, 0);
      AddWraps(ref.start, 0);
      while Leq(seqno, winTail)
        invariant ref.start <= n <= ref.start + reach
        invariant seqno == Wrap(n) == Add(winStart, n - ref.start)
        invariant Leq(seqno, winTail) <==> n < ref.start + reach
        invariant Scan(ref, n, ref.start + reach) == Scan(ref, ref.start, ref.start + reach)
        invariant forall k :: ref.start <= k < n ==> !Complete(ref, k)
        decreases ref.start + reach - n
      {
        ScanShows(seqno, n);
        var index := seqno % indexSize;
        if buffer[index].last {
          break;
        }
        AddWraps(ref.start, n + 1 - ref.start);
        AddWraps(n, 1);
        ReachCounts(winStart, winTail, n + 1 - ref.start);
        seqno := Add(seqno, 1);
        n := n + 1;
      }
    }

    /** ba_reorder_timeout; `rearmed` says that the timer was started again before the handler got
        the lock, in which case it does nothing. With win_tail in step it is the reference timeout. */
    method BaReorderTimeout(rearmed: bool)
      requires Valid() && armed
      modifies this, buffer
      ensures Valid() && winTail == old(winTail)
      ensures ref == if old(active) && old(ref.held) != map[] && !rearmed
                     then Recover(old(ref), TimerGoal(old(ref), winTail)) else old(ref)
      ensures old(active) && old(TimerOk()) ==> TimerOk()
      ensures !old(active) || rearmed ==> armed == rearmed
      ensures old(TailOk()) ==>
        TailOk() && (old(active) && old(ref.held) != map[] && !rearmed ==> ref == Timeout(old(ref)))
    {
      hide Core, Wrap, Add, Sub, InOrder, Gap, TimerGoal, Tail, Target, Reach, Legal;
      ghost var r := ref;
      CountsWaiting();
      armed := rearmed;
      if active && buffCnt != 0 && !armed {
        RecoveryTarget(r, winTail);
        RecoverLosses();
      } else {
        TailDependsOnHeld(r, ref);
      }
    }

    /** The branch of ba_reorder_timeout that does something. */
    method RecoverLosses()
      requires Valid() && ref.held != map[]
      modifies this, buffer
      ensures Valid() && TimerOk() && winTail == old(winTail)
      ensures ref == Recover(old(ref), TimerGoal(old(ref), winTail))
    {
      hide Core, Wrap, Add, Sub, InOrder, Gap, TimerGoal, Tail, Target, Reach, Legal;
      ghost var r := ref;
      CountsWaiting();
      var posSeqno, n := GetFirstSeqnoInBuff();
      RecoverSteady(r, n);
      GapDrains(r, n);
      ReachCounts(winStart, winTail, 0);
      SendMsduWithGap(posSeqno, n);
      winStart := posSeqno;
      ReleaseInOrder();
      CountRetry();
      ModReorderTimer();
    }

    /** The retry counter of ba_reorder_timeout, and the request to close the session. */
    method CountRetry()
      requires Core()
      modifies this`timeoutCnt, this`active, this`delbasSent, this`ref
      ensures Core() && ref == CountTimeout(old(ref))
    {
      hide Rep;
      ref := CountTimeout(ref);
      timeoutCnt := timeoutCnt + 1;
      if timeoutCnt > MAX_TIMEOUT_CNT {
        active := false;
        timeoutCnt := 0;
        delbasSent := delbasSent + 1;
      }
    }

    /** wlan_delba_event: on an active session in-order release, then flush_reorder_buffer, so that
        nothing stays behind and what was waiting is freed. A session that too many timeouts have
        closed already is left as it is, and its node is freed with whatever still waits: every buffer
        is accounted for if and only if the session was active or nothing was waiting. */
    method WlanDelbaEvent()
      requires Valid()
      modifies this, buffer
      ensures !active && !armed && delivered == old(delivered) && indexSize == old(indexSize) <= buffer.Length
      ensures old(active) ==> buffCnt == 0 && forall i :: 0 <= i < indexSize ==> buffer[i] == EMPTY
      ensures old(active) ==> multiset(freed) == multiset(old(freed)) + Waiting(old(ref))
      ensures !old(active) ==> freed == old(freed) && buffCnt == old(buffCnt) && buffer[..] == old(buffer[..])
      ensures (multiset(delivered) + multiset(freed)
            == multiset(old(delivered)) + multiset(old(freed)) + Waiting(old(ref)))
         <==> old(active) || Waiting(old(ref)) == multiset{}
    {
      hide Core, Legal, Waiting;
      CountsWaiting();
      armed := false;
      if active {
        Deactivate();
        assert InOrder(ref) == ref;
        WaitingDependsOnHeld(old(ref), ref);
        ReleaseInOrder();
        CountsWaiting();
        FlushReorderBuffer();
      } else {
        MoreOrNone(multiset(delivered) + multiset(freed), Waiting(ref));
      }
    }

    method Deactivate()
      requires Core()
      modifies this`active, this`timeoutCnt, this`ref
      ensures Core() && !active && ref == old(ref).(active := false, timeouts := 0)
    {
      hide Rep;
      active := false;
      timeoutCnt := 0;
      ref := ref.(active := false, timeouts := 0);
    }

    /** flush_reorder_buffer */
    method FlushReorderBuffer()
      requires Core()
      modifies this`freed, this`buffCnt, buffer
      ensures buffCnt == 0 && indexSize <= buffer.Length
      ensures forall i :: 0 <= i < indexSize ==> buffer[i] == EMPTY
      ensures multiset(freed) == multiset(old(freed)) + Waiting(ref)
    {
      hide Core, Waiting, SlotBufs;
      CountsWaiting();
      ghost var slots := buffer[..indexSize];
      SlotsHoldWaiting();
      assert slots[0..] == slots;
      NoSlotBufs([]);
      for i := 0 to indexSize
        invariant forall k :: 0 <= k < i ==> buffer[k] == EMPTY
        invariant forall k :: i <= k < indexSize ==> buffer[k] == slots[k]
        invariant multiset(freed) + multiset(SlotBufs(slots[i..])) == multiset(old(freed)) + multiset(SlotBufs(slots))
      {
        SlotBufsStep(slots, i);
        freed := freed + buffer[i].bufs;
        buffer[i] := EMPTY;
      }
      assert slots[|slots|..] == [];
      buffCnt := 0;
    }
  }

  /** The slot at the window start shows its MPDU, and cleared it represents one step forward. */
  lemma SlotShown(slots: seq<Slot>, r: Ref)
    requires Rep(slots, r.start, r.held) && Legal(r) && r.start in r.held
    ensures 0 <= r.start % |slots| < |slots| && slots[r.start % |slots|] == SlotOf(r.start, r.held[r.start])
    ensures var s := Advance(r); var e := Emit(r, r.start, r.held[r.start]);
            && Rep(slots[r.start % |slots| := EMPTY], s.start, s.held) && |s.held| == |r.held| - 1 && Legal(s)
            && s.size == r.size && s.active == r.active && s.timeouts == r.timeouts && s.delbas == r.delbas
            && s.replay == e.replay && s.delivered == e.delivered && s.freed == e.freed
  {
    Lookup(slots, r.start, r.held, r.start);
    Clear(slots, r.start, r.held);
    AdvanceDrains(r);
    DrainedLegal(r, Advance(r));
  }

  lemma EmptyIsSteady(r: Ref)
    requires 1 <= r.size <= HALF_SPACE && r.held == map[]
    ensures Legal(r) && Tail(r) == r.start - 1 && (r.timeouts == 0 ==> Steady(r))
  {
    TailRange(r);
  }

  lemma EmptyRepExactly(slots: seq<Slot>, start: nat)
    requires |slots| > 0
    ensures Rep(slots, start, map[]) <==> forall i :: 0 <= i < |slots| ==> slots[i] == EMPTY
  {
  }

  /** The slots of a window are all empty if and only if nothing is waiting in it. */
  lemma SlotsAreEmpty(slots: seq<Slot>, start: nat, held: map<nat, Mpdu>, other: nat)
    requires Rep(slots, start, held)
    ensures (forall i :: 0 <= i < |slots| ==> slots[i] == EMPTY) <==> held == map[]
  {
    OccupiedCount(slots, start, held);
    EmptyRepExactly(slots, other);
    if Rep(slots, other, map[]) {
      OccupiedCount(slots, other, map[]);
    }
    if held == map[] {
      EmptyRepExactly(slots, start);
    }
  }

  /** The tests of insert_msdu on a slot are those of the reference on what it shows. */
  lemma SlotTakes(r: Ref, n: nat, f: Frame)
    requires Legal(r) && n >= r.start
    ensures var slot := Cell(r.held, n);
            && (slot.count == 0 <==> n !in r.held)
            && (Takes(r, n, f) <==>
                  slot.count != 0 ==>
                    && slot.seq12 == Wrap(n) && !slot.last
                    && (Protected(slot.cipher) ==> slot.pnL == f.pnL && slot.pnH == f.pnH))
  {
  }

  lemma WaitingDependsOnHeld(r: Ref, s: Ref)
    requires r.held == s.held && r.start == s.start && r.size == s.size
    ensures Waiting(r) == Waiting(s)
  {
  }

  lemma MoreOrNone(a: multiset<Buf>, b: multiset<Buf>)
    ensures a == a + b <==> b == multiset{}
  {
    if b != multiset{} {
      var x :| x in b;
      assert (a + b)[x] == a[x] + b[x];
    }
  }

  /** What an MSDU or filter event does to a session, active or not. */
  function OneMsdu(r: Ref, n: nat, f: Frame): Ref {
    if r.active then Receive(r, n, f) else r.(delivered := r.delivered + f.Bufs())
  }

  lemma RecoveryTarget(r: Ref, winTail: Seq12)
    requires Steady(r) && r.held != map[]
    ensures winTail == Wrap(Tail(r)) ==>
              TimerGoal(r, winTail) == Target(r) && Tail(Timeout(r)) == Tail(r)
  {
    GoalIsTarget(r);
    TimeoutKeepsTail(r);
  }

  /** Any run of received MSDUs, filter events, timeouts and packet-number resets, as the air
      interface and the timer present them, drives the session through exactly the states of the
      reference window. */
  method Drive(s: Session, ws: seq<Signal>)
    requires s.Valid() && s.TimerOk() && Runnable(s.ref, AllMeant(s.ref, s.winTail, ws))
    modifies s, s.buffer
    ensures s.Valid() && s.ref == Run(old(s.ref), AllMeant(old(s.ref), old(s.winTail), ws))
    ensures s.active ==> s.TimerOk()
  {
    ghost var es := AllMeant(s.ref, s.winTail, ws);
    for i := 0 to |ws|
      invariant s.Valid() && (s.active ==> s.TimerOk())
      invariant Runnable(s.ref, AllMeant(s.ref, s.winTail, ws[i..]))
      invariant Run(s.ref, AllMeant(s.ref, s.winTail, ws[i..])) == Run(old(s.ref), es)
    {
      assert ws[i..][0] == ws[i] && ws[i..][1..] == ws[i + 1..];
      assert Enabled(s.ref, Meant(s.ref, s.winTail, ws[i]));
      match ws[i] {
        case Air(seqNum, f) => var _ := s.ReorderMsduProcess(seqNum, f);
        case Timer => s.BaReorderTimeout(false);
        case Reset => s.RequestPnReset();
      }
    }
  }

  /** The MPDU of a single in-sequence frame goes straight through an empty window. */
  function PassThrough(r: Ref, f: Frame): Ref {
    Emit(r, r.start, Fresh(f)).(start := r.start + 1, taken := r.taken + [Taken(r.start, f)])
  }

  /** In sequence with nothing waiting, the reference stores the MPDU and releases it at once. */
  lemma FastPath(r: Ref, f: Frame)
    requires Steady(r) && r.held == map[] && f.last
    ensures Receive(r, r.start, f) == PassThrough(r, f)
  {
    var s := Store(r, r.start, f);
    assert s.held - {r.start} == map[];
    assert InOrder(s) == InOrder(Advance(s)) == Advance(s);
  }
}
