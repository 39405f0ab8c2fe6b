/** What draining does to the reference window. */
module ReorderFacts {
  import opened SeqNo
  import opened ReorderWindow

  /** Every waiting MPDU lies inside [start, end). */
  ghost predicate Within(r: Ref, end: int) {
    forall n :: n in r.held ==> r.start <= n < end
  }

  /** A legal window size, everything waiting inside the window. */
  ghost predicate Legal(r: Ref) {
    && 1 <= r.size <= HALF_SPACE
    && Within(r, r.start + r.size)
    && (forall n :: n in r.held ==> r.held[n].count >= 1)
  }

  /** A session between two steps: besides being legal, the MPDU at its start is not complete, and
      no retry is counted when nothing waits. */
  ghost predicate Steady(r: Ref) {
    && Legal(r)
    && !Complete(r, r.start)
    && (r.held == map[] ==> r.timeouts == 0)
  }

  function From(held: map<nat, Mpdu>, n: nat): map<nat, Mpdu> {
    map k | k in held && k >= n :: held[k]
  }

  /** s is r with its window start moved forward and everything before it released. */
  ghost predicate Drained(r: Ref, s: Ref) {
    && s.start >= r.start
    && s.held == From(r.held, s.start)
    && s.size == r.size && s.active == r.active && s.timeouts == r.timeouts && s.delbas == r.delbas
    && s.taken == r.taken && s.resets == r.resets
  }

  lemma DrainedTrans(r: Ref, s: Ref, t: Ref)
    requires Drained(r, s) && Drained(s, t)
    ensures Drained(r, t)
  {
    assert From(From(r.held, s.start), t.start) == From(r.held, t.start);
  }

  lemma AdvanceDrains(r: Ref)
    requires Within(r, r.start + r.size)
    ensures Drained(r, Advance(r)) && Advance(r).start == r.start + 1
    ensures |Advance(r).held| == |r.held| - (if r.start in r.held then 1 else 0)
  {
    if r.start in r.held {
      assert (r.held - {r.start}).Keys == r.held.Keys - {r.start};
    }
    assert Advance(r).held == From(r.held, r.start + 1);
  }

  /** Draining in order releases a gapless run of complete MPDUs and stops before the first number
      that is missing or incomplete; it never runs past the MPDUs that were waiting. */
  lemma {:induction false} InOrderDrains(r: Ref)
    requires Within(r, r.start + r.size)
    ensures Drained(r, InOrder(r))
    ensures !Complete(InOrder(r), InOrder(r).start)
    ensures forall n :: r.start <= n < InOrder(r).start ==> Complete(r, n)
    ensures Complete(r, r.start) ==> InOrder(r).start > r.start && |InOrder(r).held| < |r.held|
    ensures |InOrder(r).held| <= |r.held|
    decreases r.held.Keys
  {
    AdvanceDrains(r);
    if Complete(r, r.start) {
      assert r.start in r.held.Keys && r.start !in Advance(r).held.Keys;
      InOrderDrains(Advance(r));
      DrainedTrans(r, Advance(r), InOrder(r));
      assert forall n :: Complete(Advance(r), n) ==> Complete(r, n);
    } else {
      assert From(r.held, r.start) == r.held;
    }
  }

  lemma {:induction false} GapDrains(r: Ref, goal: nat)
    requires Within(r, r.start + r.size)
    ensures Drained(r, Gap(r, goal))
    ensures Gap(r, goal).start == if r.start >= goal then r.start else goal
    ensures |Gap(r, goal).held| <= |r.held|
    decreases goal - r.start
  {
    if r.start < goal {
      AdvanceDrains(r);
      GapDrains(Advance(r), goal);
      DrainedTrans(r, Advance(r), Gap(r, goal));
    } else {
      assert From(r.held, r.start) == r.held;
    }
  }

  /** A gap release up to `goal` and the in-order release after it, seen as one. */
  lemma FlushDrains(r: Ref, goal: nat)
    requires Legal(r) && goal >= r.start
    ensures var s := InOrder(Gap(r, goal));
            && Drained(r, s) && Legal(s) && !Complete(s, s.start)
            && s.start >= goal && |s.held| <= |r.held|
            && (Complete(r, goal) ==> s.start > goal && |s.held| < |r.held|)
            && (forall k :: goal <= k < s.start ==> Complete(r, k))
  {
    var g := Gap(r, goal);
    GapDrains(r, goal);
    DrainedLegal(r, g);
    assert forall k :: k >= goal ==> (Complete(r, k) <==> Complete(g, k));
    InOrderDrains(g);
    DrainedTrans(r, g, InOrder(g));
    DrainedLegal(r, InOrder(g));
  }

  /** Whatever lies ahead, after making room the number fits the window and nothing is held there
      that was not held before. */
  lemma RoomDrains(r: Ref, n: nat)
    requires Steady(r) && n >= r.start
    ensures Drained(r, MakeRoom(r, n))
    ensures MakeRoom(r, n).start <= n < MakeRoom(r, n).start + r.size
    ensures n in MakeRoom(r, n).held <==> n in r.held
    ensures !Complete(MakeRoom(r, n), MakeRoom(r, n).start)
    ensures n >= r.start + r.size ==> MakeRoom(r, n).start >= n - r.size + 1 > r.start
    ensures n >= r.start + r.size ==> forall k :: n - r.size < k < MakeRoom(r, n).start ==> Complete(r, k)
  {
    hide InOrder, Gap;
    if n >= r.start + r.size {
      FlushDrains(r, n - r.size + 1);
      assert !Complete(r, n);
    } else {
      assert From(r.held, r.start) == r.held;
    }
  }

  lemma StoreLegal(r: Ref, n: nat, f: Frame)
    requires Legal(r) && r.start <= n < r.start + r.size
    ensures Legal(Store(r, n, f))
    ensures |Store(r, n, f).held| == |r.held| + (if n in r.held then 0 else 1)
    ensures n in Store(r, n, f).held
  {
    var s := Store(r, n, f);
    assert s.held.Keys == r.held.Keys + {n};
  }

  lemma DrainedLegal(r: Ref, s: Ref)
    requires Legal(r) && Drained(r, s)
    ensures Legal(s)
  {
  }

  lemma SettleSteady(r: Ref)
    requires Legal(r) && !Complete(r, r.start)
    ensures Steady(Settle(r))
  {
  }

  /** Every frame leaves the session steady. */
  lemma ReceiveSteady(r: Ref, n: nat, f: Frame)
    requires Steady(r)
    ensures Steady(Receive(r, n, f))
    ensures Receive(r, n, f).start >= r.start && Receive(r, n, f).size == r.size
  {
    var room := r;
    if n >= r.start {
      RoomDrains(r, n);
      room := MakeRoom(r, n);
      DrainedLegal(r, room);
    }
    if !Takes(room, n, f) {
      SettleSteady(room.(freed := room.freed + f.Bufs()));
    } else {
      var s := Store(room, n, f);
      StoreLegal(room, n, f);
      if f.last && n == s.start {
        InOrderDrains(s);
        DrainedLegal(s, InOrder(s));
        SettleSteady(InOrder(s));
      } else {
        SettleSteady(s);
      }
    }
  }

  /** A frame is dropped only when it is old, repeats a complete MPDU, or does not match the packet
      number of the MPDU it would continue; then nothing moves. Any other frame is stored. */
  lemma ReceiveTakes(r: Ref, n: nat, f: Frame)
    requires Steady(r)
    ensures var taken :=
              n >= r.start &&
              (n in r.held ==>
                 var m := r.held[n];
                 !m.last && (m.cipher == 1 || m.cipher == 2 ==> m.pnL == f.pnL && m.pnH == f.pnH));
            var s := Receive(r, n, f);
            if taken then s.taken == r.taken + [Taken(n, f)]
            else s == r.(freed := r.freed + f.Bufs())
  {
    if n >= r.start {
      RoomDrains(r, n);
      var room := MakeRoom(r, n);
      DrainedLegal(r, room);
      if Takes(room, n, f) {
        StoreLegal(room, n, f);
        InOrderDrains(Store(room, n, f));
      }
    }
  }

  // ----- loss recovery

  lemma {:induction false} TopIsMax(r: Ref, end: int)
    requires forall n :: n in r.held ==> r.start <= n
    ensures r.start - 1 <= Top(r, end)
    ensures r.start <= end ==> Top(r, end) < end
    ensures forall n :: n in r.held && n < end ==> n <= Top(r, end)
    ensures Top(r, end) >= r.start ==> Top(r, end) in r.held
    decreases end - r.start
  {
    if r.start < end && end - 1 !in r.held {
      TopIsMax(r, end - 1);
    }
  }

  lemma TopIs(r: Ref, t: int)
    requires Within(r, r.start + r.size)
    requires forall n :: n in r.held ==> n <= t
    requires t in r.held || t == r.start - 1
    ensures Tail(r) == t
  {
    TopIsMax(r, r.start + r.size);
  }

  lemma {:induction false} ScanFinds(r: Ref, n: nat, stop: nat)
    requires n <= stop
    ensures n <= Scan(r, n, stop) <= stop
    ensures forall k :: n <= k < Scan(r, n, stop) ==> !Complete(r, k)
    ensures Scan(r, n, stop) < stop ==> Complete(r, Scan(r, n, stop))
    decreases stop - n
  {
    if n < stop && !Complete(r, n) {
      ScanFinds(r, n + 1, stop);
    }
  }

  /** The timeout's target is the first complete MPDU, or just past the last waiting one. */
  lemma TargetIsFirstComplete(r: Ref)
    requires Steady(r) && r.held != map[]
    ensures r.start < Target(r) <= Tail(r) + 1
    ensures Complete(r, Target(r)) || Target(r) == Tail(r) + 1
    ensures forall n :: Complete(r, n) ==> Target(r) <= n
    ensures forall n :: n in r.held ==> n <= Tail(r)
    ensures Tail(r) in r.held
  {
    var k :| k in r.held;
    TopIsMax(r, r.start + r.size);
    ScanFinds(r, r.start, Tail(r) + 1);
  }

  /** Restarting the window anywhere at or after its start leaves the session steady. */
  lemma RecoverSteady(r: Ref, goal: nat)
    requires Steady(r) && goal >= r.start
    ensures Steady(Recover(r, goal)) && Recover(r, goal).size == r.size
    ensures Recover(r, goal).start >= goal && |Recover(r, goal).held| <= |r.held|
    ensures Complete(r, goal) ==> Recover(r, goal).start > goal && |Recover(r, goal).held| < |r.held|
    ensures Recover(r, goal).held == From(r.held, Recover(r, goal).start)
  {
    hide InOrder, Gap, From;
    FlushDrains(r, goal);
    SettleSteady(CountTimeout(InOrder(Gap(r, goal))));
  }

  /** A timeout on a session with waiting MPDUs strictly moves the window and shrinks the buffer. */
  lemma TimeoutProgress(r: Ref)
    requires Steady(r) && r.held != map[]
    ensures Steady(Timeout(r)) && Timeout(r).size == r.size
    ensures Timeout(r).start > r.start && |Timeout(r).held| < |r.held|
  {
    TargetIsFirstComplete(r);
    RecoverSteady(r, Target(r));
    if !Complete(r, Target(r)) {
      assert Timeout(r).held == map[];
      assert Tail(r) in r.held.Keys;
    }
  }
}
