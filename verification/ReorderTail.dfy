/** win_tail: the twelve-bit mark of the newest waiting MPDU that bounds the loss-recovery scan. */
module ReorderTail {
  import opened SeqNo
  import opened ReorderWindow
  import opened ReorderFacts

  /** How many numbers get_first_seqno_in_buff may visit from win_start on. */
  function Reach(winStart: Seq12, winTail: Seq12): nat {
    if Leq(winStart, winTail) then Sub(winTail, winStart) + 1 else 0
  }

  /** The scan's loop test, seen from win_start: it stops after Reach steps whatever win_tail is. */
  lemma ReachCounts(winStart: Seq12, winTail: Seq12, i: nat)
    requires i <= Reach(winStart, winTail)
    ensures Reach(winStart, winTail) <= HALF_SPACE + 1
    ensures Leq(Add(winStart, i), winTail) <==> i < Reach(winStart, winTail)
  {
    WrapDistance(winStart, winStart + i);
  }

  lemma TailRange(r: Ref)
    requires Legal(r)
    ensures r.start - 1 <= Tail(r) < r.start + r.size
    ensures Tail(r) in r.held || (Tail(r) == r.start - 1 && r.held == map[])
    ensures forall n :: n in r.held ==> n <= Tail(r)
  {
    TopIsMax(r, r.start + r.size);
    if Tail(r) == r.start - 1 {
      assert forall n :: n !in r.held;
    }
  }

  /** With win_tail in step, the scan covers exactly the waiting MPDUs. */
  lemma ReachIsTail(r: Ref)
    requires Legal(r)
    ensures r.start + Reach(Wrap(r.start), Wrap(Tail(r))) == Tail(r) + 1
  {
    TailRange(r);
    LeqDecidesOrder(r.start, Tail(r));
    if Tail(r) >= r.start {
      WrapDistance(r.start, Tail(r));
    }
  }

  /** Releasing from the front never moves the tail. */
  lemma DrainKeepsTail(r: Ref, s: Ref)
    requires Legal(r) && Drained(r, s) && s.start - 1 <= Tail(r)
    ensures Tail(s) == Tail(r)
  {
    TailRange(r);
    TopIs(s, Tail(r));
  }

  lemma InOrderKeepsTail(r: Ref)
    requires Legal(r)
    ensures Tail(InOrder(r)) == Tail(r)
  {
    InOrderDrains(r);
    TailRange(r);
    var s := InOrder(r);
    if s.start > r.start { assert Complete(r, s.start - 1); }
    DrainKeepsTail(r, s);
  }

  lemma TailDependsOnHeld(r: Ref, s: Ref)
    requires r.start == s.start && r.held == s.held && r.size == s.size
    ensures Tail(r) == Tail(s)
  {
    TopDependsOnHeld(r, s, r.size);
  }

  lemma {:induction false} TopDependsOnHeld(r: Ref, s: Ref, k: nat)
    requires r.start == s.start && r.held == s.held
    ensures Top(r, r.start + k) == Top(s, s.start + k)
  {
    if k > 0 { TopDependsOnHeld(r, s, k - 1); }
  }

  lemma TimeoutKeepsTail(r: Ref)
    requires Steady(r) && r.held != map[]
    ensures Tail(Timeout(r)) == Tail(r)
  {
    TargetIsFirstComplete(r);
    var g := Gap(r, Target(r));
    GapDrains(r, Target(r));
    DrainKeepsTail(r, g);
    DrainedLegal(r, g);
    InOrderKeepsTail(g);
    TailDependsOnHeld(InOrder(g), Timeout(r));
  }

  lemma TailAfterStore(r: Ref, room: Ref, n: nat, f: Frame)
    requires Legal(r) && Drained(r, room) && room.start <= n < room.start + room.size
    ensures Tail(Store(room, n, f)) == if n > Tail(r) then n else Tail(r)
  {
    TailRange(r);
    DrainedLegal(r, room);
    StoreLegal(room, n, f);
    TopIs(Store(room, n, f), if n > Tail(r) then n else Tail(r));
  }

  /** The tail of the window after a number at or beyond its start was offered: that number if it
      is the newest, the old tail otherwise. */
  lemma TailAfterReceive(r: Ref, n: nat, f: Frame)
    requires Steady(r) && n >= r.start
    ensures Tail(Receive(r, n, f)) == if n > Tail(r) then n else Tail(r)
  {
    var room := MakeRoom(r, n);
    RoomDrains(r, n);
    if Takes(room, n, f) {
      var s := Store(room, n, f);
      DrainedLegal(r, room);
      StoreLegal(room, n, f);
      TailAfterStore(r, room, n, f);
      InOrderKeepsTail(s);
      var t := if f.last && n == s.start then InOrder(s) else s;
      TailDependsOnHeld(t, Settle(t));
    } else {
      TailRange(r);
      TailDependsOnHeld(r, Receive(r, n, f));
    }
  }

  /** The update of win_tail by one stored frame. */
  function Moved(winTail: Seq12, seq12: Seq12): Seq12 {
    if Geq(seq12, winTail) then seq12 else winTail
  }

  /** win_tail after one frame: the fast path resets it, a stored frame may move it. */
  function NextTail(winTail: Seq12, r: Ref, n: nat, f: Frame): Seq12 {
    if r.held == map[] && n == r.start && f.last then Wrap(n)
    else if n >= r.start && Takes(MakeRoom(r, n), n, f) then Moved(winTail, Wrap(n))
    else winTail
  }

  /** win_tail keeps marking the newest waiting MPDU exactly when the frame is old or its number and
      the old tail are unambiguous. */
  lemma TailFollows(r: Ref, n: nat, f: Frame)
    requires Steady(r) && Unambiguous(r.start, n)
    ensures NextTail(Wrap(Tail(r)), r, n, f) == Wrap(Tail(Receive(r, n, f)))
            <==> n < r.start || Unambiguous(Tail(r), n)
  {
    TailRange(r);
    if n < r.start {
      TailDependsOnHeld(r, Receive(r, n, f));
    } else {
      TailAfterReceive(r, n, f);
      RoomDrains(r, n);
      LeqDecidesOrder(Tail(r), n);
      if n > Tail(r) { WrapDistance(Tail(r), n); }
    }
  }

  /** The furthest a frame may be ahead of the window start for win_tail to follow it always. */
  const TAIL_REACH := 2046

  /** A frame at most 2046 ahead of the window start never outruns win_tail. */
  lemma ReachSuffices(r: Ref, n: nat)
    requires Steady(r) && r.start <= n <= r.start + TAIL_REACH
    ensures Unambiguous(Tail(r), n)
  {
    TailRange(r);
  }

  // ----- the timeout as the driver runs it

  /** get_first_seqno_in_buff: the first complete MPDU, or where win_tail ends the scan. */
  function TimerGoal(r: Ref, winTail: Seq12): (goal: nat)
    ensures goal >= r.start
  {
    ScanFinds(r, r.start, r.start + Reach(Wrap(r.start), winTail));
    Scan(r, r.start, r.start + Reach(Wrap(r.start), winTail))
  }

  /** Whatever win_tail is, the scan ends at the first number from win_start on that is complete or
      that win_tail does not reach. */
  lemma TimerGoalExactly(r: Ref, winTail: Seq12)
    ensures var g := TimerGoal(r, winTail);
            && r.start <= g
            && (forall k: nat :: r.start <= k < g ==> !Complete(r, k) && Leq(Wrap(k), winTail))
            && (Complete(r, g) || !Leq(Wrap(g), winTail))
  {
    var reach, g := Reach(Wrap(r.start), winTail), TimerGoal(r, winTail);
    ScanFinds(r, r.start, r.start + reach);
    forall k: nat | r.start <= k <= r.start + reach
      ensures Leq(Wrap(k), winTail) <==> k < r.start + reach
    {
      ReachCounts(Wrap(r.start), winTail, k - r.start);
      AddWraps(r.start, k - r.start);
    }
  }

  /** With win_tail in step that is the reference's choice. */
  lemma GoalIsTarget(r: Ref)
    requires Steady(r) && r.held != map[]
    ensures TimerGoal(r, Wrap(Tail(r))) == Target(r)
  {
    ReachIsTail(r);
    TailRange(r);
  }

  // ----- what the air interface says

  /** An event as the driver sees it: a sequence number has twelve bits, a timer no argument. */
  datatype Signal = Air(seqNum: Seq12, frame: Frame) | Timer | Reset

  /** What a signal means to a session: the sequence number nearest to its window start, and a
      timeout up to where its win_tail lets the scan run. */
  function Meant(r: Ref, winTail: Seq12, w: Signal): Event
    requires r.start >= HALF_SPACE
  {
    match w
    case Air(seqNum, f) => Rx(Unwrap(r.start, seqNum), f)
    case Timer => Expire(TimerGoal(r, winTail))
    case Reset => ResetPn
  }

  function TailAfter(winTail: Seq12, r: Ref, e: Event): Seq12 {
    if e.Rx? then NextTail(winTail, r, e.n, e.frame) else winTail
  }

  function AllMeant(r: Ref, winTail: Seq12, ws: seq<Signal>): seq<Event>
    requires r.start >= HALF_SPACE
    decreases |ws|
  {
    if ws == [] then []
    else
      var e := Meant(r, winTail, ws[0]);
      [e] + AllMeant(Step(r, e), TailAfter(winTail, r, e), ws[1..])
  }

  /** No twelve-bit number is excluded: a signal is enabled whenever the session is active, the
      sixteen-bit counter of the MPDU it joins has room, and a timer has something to wait for. */
  lemma EverySignalMeans(r: Ref, winTail: Seq12, w: Signal)
    requires r.start >= HALF_SPACE
    ensures Enabled(r, Meant(r, winTail, w)) <==>
      && r.active
      && (w.Air? ==>
            && WellFormed(w.frame)
            && (var n := Unwrap(r.start, w.seqNum);
                n in r.held ==> r.held[n].count + 1 < MSDU_NUM_SPACE))
      && (w.Timer? ==> r.held != map[])
  {
  }

  // ----- win_tail over a run

  /** Every timeout of the run goes where the reference timeout goes. */
  ghost predicate OnTarget(r: Ref, es: seq<Event>)
    decreases |es|
  {
    es == [] || ((es[0].Expire? ==> Step(r, es[0]) == Timeout(r)) && OnTarget(Step(r, es[0]), es[1..]))
  }

  /** No frame of the run is more than 2046 ahead of the window start it meets. */
  ghost predicate WithinReach(r: Ref, es: seq<Event>)
    decreases |es|
  {
    es == [] ||
    ((es[0].Rx? ==> es[0].n <= r.start + TAIL_REACH) && WithinReach(Step(r, es[0]), es[1..]))
  }

  /** One signal keeps win_tail in step unless it is a frame too far ahead. */
  lemma SignalKeepsStep(r: Ref, w: Signal)
    requires Steady(r) && r.start >= HALF_SPACE
    requires var e := Meant(r, Wrap(Tail(r)), w); Enabled(r, e) && (e.Rx? ==> e.n <= r.start + TAIL_REACH)
    ensures var e := Meant(r, Wrap(Tail(r)), w);
            && Steady(Step(r, e)) && TailAfter(Wrap(Tail(r)), r, e) == Wrap(Tail(Step(r, e)))
            && (e.Expire? ==> Step(r, e) == Timeout(r))
  {
    match w
    case Air(seqNum, f) =>
      var n := Unwrap(r.start, seqNum);
      ReceiveSteady(r, n, f);
      TailFollows(r, n, f);
      if n >= r.start { ReachSuffices(r, n); }
    case Timer =>
      GoalIsTarget(r);
      TimeoutProgress(r);
      TimeoutKeepsTail(r);
    case Reset =>
      TailDependsOnHeld(r, Step(r, ResetPn));
  }

  /** In a run without frames further ahead win_tail stays in step, and every timeout is the
      reference timeout. */
  lemma {:induction false} ReachKeepsStep(r: Ref, ws: seq<Signal>)
    requires Steady(r) && r.start >= HALF_SPACE
    requires var es := AllMeant(r, Wrap(Tail(r)), ws); Runnable(r, es) && WithinReach(r, es)
    ensures OnTarget(r, AllMeant(r, Wrap(Tail(r)), ws))
    decreases |ws|
  {
    if ws != [] {
      hide Step, Meant, TailAfter, Enabled;
      SignalKeepsStep(r, ws[0]);
      var e := Meant(r, Wrap(Tail(r)), ws[0]);
      StepForward(r, e);
      ReachKeepsStep(Step(r, e), ws[1..]);
    }
  }

  lemma StepForward(r: Ref, e: Event)
    ensures Step(r, e).start >= r.start
  {
  }

  // ----- a win_tail left behind

  /** What the timeout handler does with the win_tail it has. */
  function RecoverBy(r: Ref, winTail: Seq12): Ref {
    Recover(r, TimerGoal(r, winTail))
  }

  /** A timeout with something waiting moves win_start exactly when win_tail is not before it. */
  lemma ProgressNeedsTail(r: Ref, winTail: Seq12)
    requires Steady(r) && r.held != map[]
    ensures RecoverBy(r, winTail).start > r.start <==> Leq(Wrap(r.start), winTail)
    ensures !Leq(Wrap(r.start), winTail) ==>
      RecoverBy(r, winTail).start == r.start && RecoverBy(r, winTail).held == r.held
  {
    var stop := r.start + Reach(Wrap(r.start), winTail);
    ScanFinds(r, r.start, stop);
    if Leq(Wrap(r.start), winTail) {
      assert Scan(r, r.start, stop) > r.start;
      RecoverSteady(r, Scan(r, r.start, stop));
    }
  }

  // ----- what each timeout of a run releases

  /** The number at or after win_start that win_tail stands for. */
  function TailNumber(r: Ref, winTail: Seq12): nat {
    r.start + Sub(winTail, Wrap(r.start))
  }

  lemma TailNumberWraps(r: Ref, winTail: Seq12)
    ensures Wrap(TailNumber(r, winTail)) == winTail && r.start <= TailNumber(r, winTail) < r.start + SEQ_SPACE
  {
    AheadWraps(r.start, winTail);
  }

  lemma TailNumberIs(r: Ref, winTail: Seq12, t: nat)
    requires r.start <= t < r.start + SEQ_SPACE && Wrap(t) == winTail
    ensures TailNumber(r, winTail) == t
  {
    WrapDistance(r.start, t);
  }

  /** In step or not, win_tail marks something that waits, or nothing beyond it waits. */
  ghost predicate TailMarks(r: Ref, winTail: Seq12) {
    var t := TailNumber(r, winTail);
    t in r.held || forall n :: n in r.held ==> n <= t
  }

  /** Releasing from the front keeps that: a mark that is passed reappears one space further on. */
  lemma DrainMarks(r: Ref, s: Ref, winTail: Seq12)
    requires Legal(r) && Drained(r, s) && TailMarks(r, winTail) && s.start <= r.start + SEQ_SPACE
    ensures TailMarks(s, winTail)
  {
    var t := TailNumber(r, winTail);
    TailNumberWraps(r, winTail);
    if s.start <= t {
      TailNumberIs(s, winTail, t);
    } else {
      AddWraps(t, SEQ_SPACE);
      assert Wrap(t + SEQ_SPACE) == winTail;
      TailNumberIs(s, winTail, t + SEQ_SPACE);
    }
  }

  lemma StoreMarks(r: Ref, n: nat, f: Frame, winTail: Seq12)
    requires Legal(r) && TailMarks(r, winTail) && r.start <= n < r.start + r.size
    ensures TailMarks(Store(r, n, f), Moved(winTail, Wrap(n)))
  {
    var s, t := Store(r, n, f), TailNumber(r, winTail);
    TailNumberWraps(r, winTail);
    if Geq(Wrap(n), winTail) {
      TailNumberIs(s, Wrap(n), n);
    } else {
      TailNumberIs(s, winTail, t);
      if n > t { LeqDecidesOrder(t, n); }
    }
  }

  lemma MarksDependOnHeld(r: Ref, s: Ref, winTail: Seq12)
    requires TailMarks(r, winTail) && r.start == s.start && r.held == s.held
    ensures TailMarks(s, winTail)
  {
  }

  lemma InOrderMarks(r: Ref, winTail: Seq12)
    requires Legal(r) && TailMarks(r, winTail)
    ensures TailMarks(InOrder(r), winTail)
  {
    InOrderDrains(r);
    var s := InOrder(r);
    if s.start > r.start { assert Complete(r, s.start - 1); }
    DrainMarks(r, s, winTail);
  }

  lemma RoomMarks(r: Ref, n: nat, winTail: Seq12)
    requires Steady(r) && TailMarks(r, winTail) && r.start <= n <= r.start + HALF_SPACE
    ensures TailMarks(MakeRoom(r, n), winTail)
  {
    RoomDrains(r, n);
    DrainMarks(r, MakeRoom(r, n), winTail);
  }

  /** A single complete MPDU at the start of an empty window leaves it empty. */
  lemma FastPathEmpties(r: Ref, f: Frame)
    requires Steady(r) && r.held == map[] && f.last
    ensures Receive(r, r.start, f).held == map[]
  {
    var s := Store(r, r.start, f);
    StoreLegal(r, r.start, f);
    InOrderDrains(s);
    assert forall k :: k in s.held ==> k == r.start;
  }

  lemma ReceiveMarks(r: Ref, n: nat, f: Frame, winTail: Seq12)
    requires Steady(r) && TailMarks(r, winTail) && Unambiguous(r.start, n)
    ensures TailMarks(Receive(r, n, f), NextTail(winTail, r, n, f))
  {
    hide TailMarks, MakeRoom, InOrder, Moved;
    var room := if n >= r.start then MakeRoom(r, n) else r;
    if n >= r.start {
      RoomDrains(r, n);
      RoomMarks(r, n, winTail);
      DrainedLegal(r, room);
    }
    if !Takes(room, n, f) {
      MarksDependOnHeld(room, Receive(r, n, f), winTail);
    } else if r.held == map[] && n == r.start && f.last {
      FastPathEmpties(r, f);
      EmptyMarks(Receive(r, n, f), Wrap(n));
    } else {
      var s := Store(room, n, f);
      StoreLegal(room, n, f);
      StoreMarks(room, n, f, winTail);
      InOrderMarks(s, Moved(winTail, Wrap(n)));
      var t := if f.last && n == s.start then InOrder(s) else s;
      MarksDependOnHeld(t, Settle(t), Moved(winTail, Wrap(n)));
    }
  }

  lemma EmptyMarks(r: Ref, winTail: Seq12)
    requires r.held == map[]
    ensures TailMarks(r, winTail)
  {
  }

  lemma FlushMarks(r: Ref, goal: nat, winTail: Seq12)
    requires Steady(r) && TailMarks(r, winTail) && r.start <= goal <= r.start + HALF_SPACE + 1
    ensures TailMarks(InOrder(Gap(r, goal)), winTail)
  {
    hide InOrder, Gap, TailMarks;
    FlushDrains(r, goal);
    var s := InOrder(Gap(r, goal));
    if s.start > goal { assert Complete(r, s.start - 1); }
    DrainMarks(r, s, winTail);
  }

  lemma RecoverMarks(r: Ref, winTail: Seq12)
    requires Steady(r) && TailMarks(r, winTail)
    ensures TailMarks(RecoverBy(r, winTail), winTail)
  {
    var goal := TimerGoal(r, winTail);
    ReachCounts(Wrap(r.start), winTail, 0);
    ScanFinds(r, r.start, r.start + Reach(Wrap(r.start), winTail));
    hide InOrder, Gap, TailMarks, Steady, Scan, Reach, TimerGoal;
    FlushMarks(r, goal, winTail);
    MarksDependOnHeld(InOrder(Gap(r, goal)), RecoverBy(r, winTail), winTail);
  }

  lemma FromShrinks(held: map<nat, Mpdu>, n: nat, k: nat)
    requires k in held && k < n
    ensures |From(held, n)| < |held|
  {
    assert From(held, n).Keys <= held.Keys - {k};
    SubsetSize(From(held, n).Keys, held.Keys - {k});
  }

  lemma {:induction false} SubsetSize(a: set<nat>, b: set<nat>)
    requires a <= b
    ensures |a| <= |b|
  {
    if x :| x in a { SubsetSize(a - {x}, b - {x}); }
  }

  /** A timeout releases something if and only if win_tail is not before win_start. */
  lemma TimeoutReleases(r: Ref, winTail: Seq12)
    requires Steady(r) && r.held != map[] && TailMarks(r, winTail)
    ensures |RecoverBy(r, winTail).held| < |r.held| <==> Leq(Wrap(r.start), winTail)
  {
    ProgressNeedsTail(r, winTail);
    if Leq(Wrap(r.start), winTail) {
      var t, goal := TailNumber(r, winTail), TimerGoal(r, winTail);
      ScanFinds(r, r.start, t + 1);
      RecoverSteady(r, goal);
      if !Complete(r, goal) {
        assert goal == t + 1;
        var k :| k in r.held && (t in r.held ==> k == t);
        FromShrinks(r.held, RecoverBy(r, winTail).start, k);
      }
    }
  }

  /** At each timeout of the run, the buffer shrinks if and only if win_tail is not before win_start;
      otherwise the timeout releases nothing. */
  ghost predicate TimeoutsReleaseExactly(r: Ref, winTail: Seq12, ws: seq<Signal>)
    requires r.start >= HALF_SPACE
    decreases |ws|
  {
    ws == [] ||
    (var e := Meant(r, winTail, ws[0]);
     && (ws[0].Timer? ==>
           && (|Step(r, e).held| < |r.held| <==> Leq(Wrap(r.start), winTail))
           && (!Leq(Wrap(r.start), winTail) ==> Step(r, e).start == r.start && Step(r, e).held == r.held))
     && TimeoutsReleaseExactly(Step(r, e), TailAfter(winTail, r, e), ws[1..]))
  }

  lemma SignalMarks(r: Ref, winTail: Seq12, w: Signal)
    requires Steady(r) && r.start >= HALF_SPACE && TailMarks(r, winTail) && Enabled(r, Meant(r, winTail, w))
    ensures var e := Meant(r, winTail, w);
            && Steady(Step(r, e)) && TailMarks(Step(r, e), TailAfter(winTail, r, e))
            && (w.Timer? ==>
                  && (|Step(r, e).held| < |r.held| <==> Leq(Wrap(r.start), winTail))
                  && (!Leq(Wrap(r.start), winTail) ==> Step(r, e).start == r.start && Step(r, e).held == r.held))
  {
    hide TailMarks, Receive, Recover, NextTail, TimerGoal;
    match w
    case Air(seqNum, f) =>
      ReceiveSteady(r, Unwrap(r.start, seqNum), f);
      ReceiveMarks(r, Unwrap(r.start, seqNum), f, winTail);
    case Timer =>
      TimeoutReleases(r, winTail);
      ProgressNeedsTail(r, winTail);
      RecoverMarks(r, winTail);
      RecoverSteady(r, TimerGoal(r, winTail));
    case Reset =>
      MarksDependOnHeld(r, Step(r, ResetPn), winTail);
  }

  /** That holds over every run, win_tail in step or not. */
  lemma {:induction false} RunReleases(r: Ref, winTail: Seq12, ws: seq<Signal>)
    requires Steady(r) && r.start >= HALF_SPACE && TailMarks(r, winTail)
    requires Runnable(r, AllMeant(r, winTail, ws))
    ensures TimeoutsReleaseExactly(r, winTail, ws)
    decreases |ws|
  {
    if ws != [] {
      hide Step, Meant, TailAfter, Enabled, TailMarks, Steady;
      SignalMarks(r, winTail, ws[0]);
      var e := Meant(r, winTail, ws[0]);
      StepForward(r, e);
      RunReleases(Step(r, e), TailAfter(winTail, r, e), ws[1..]);
    }
  }

  /** Over every run of a session just opened. */
  lemma LossRecoveryExactly(start: nat, size: nat, winTail: Seq12, ws: seq<Signal>)
    requires HALF_SPACE <= start && 1 <= size <= HALF_SPACE
    requires Runnable(Opened(start, size), AllMeant(Opened(start, size), winTail, ws))
    ensures TimeoutsReleaseExactly(Opened(start, size), winTail, ws)
  {
    EmptyMarks(Opened(start, size), winTail);
    RunReleases(Opened(start, size), winTail, ws);
  }

  function RecoverTimes(r: Ref, winTail: Seq12, k: nat): Ref
    decreases k
  {
    if k == 0 then r else RecoverTimes(RecoverBy(r, winTail), winTail, k - 1)
  }

  /** With win_tail behind, no number of timeouts releases anything: only a frame that moves win_tail
      can help. */
  lemma {:induction false} TimeoutsStall(r: Ref, winTail: Seq12, k: nat)
    requires Steady(r) && r.held != map[] && !Leq(Wrap(r.start), winTail)
    ensures RecoverTimes(r, winTail, k).start == r.start && RecoverTimes(r, winTail, k).held == r.held
    decreases k
  {
    if k > 0 {
      ProgressNeedsTail(r, winTail);
      ScanFinds(r, r.start, r.start + Reach(Wrap(r.start), winTail));
      RecoverSteady(r, Scan(r, r.start, r.start + Reach(Wrap(r.start), winTail)));
      TimeoutsStall(RecoverBy(r, winTail), winTail, k - 1);
    }
  }

  /** A jump on a session with nothing waiting only moves the window. */
  lemma {:induction false} EmptyGap(r: Ref, goal: nat)
    requires r.held == map[] && r.start <= goal
    ensures Gap(r, goal) == r.(start := goal)
    decreases goal - r.start
  {
    if r.start < goal { EmptyGap(r.(start := r.start + 1), goal); }
  }

  /** A complete MPDU far beyond an empty window: the window moves up to it and holds nothing else. */
  lemma JumpAlone(start: nat, size: nat, n: nat, f: Frame)
    requires 2 <= size <= HALF_SPACE && n >= start + size
    ensures var s := Receive(Opened(start, size), n, f);
            && s.start == n - size + 1 && s.size == size && s.active && s.timeouts == 0
            && s.held == map[n := Fresh(f)]
  {
    EmptyGap(Opened(start, size), n - size + 1);
  }

  /** One frame 2047 ahead is enough to leave win_tail behind: a session whose window starts at
      4097 accepts number 6144, win_tail stays at 0, and no number of timeouts releases the MPDU. */
  lemma TailOutrun(size: nat, f: Frame, k: nat)
    requires 2 <= size <= 1024
    ensures var (r, n) := (Opened(SEQ_SPACE + 1, size), SEQ_SPACE + 2048);
            && Unambiguous(r.start, n) && !Unambiguous(Tail(r), n) && Wrap(Tail(r)) == 0
            && NextTail(0, r, n, f) == 0
            && RecoverTimes(Receive(r, n, f), 0, k).held == map[n := Fresh(f)]
  {
    var r, n := Opened(SEQ_SPACE + 1, size), SEQ_SPACE + 2048;
    TailRange(r);
    EmptyGap(r, n - size + 1);
    JumpAlone(SEQ_SPACE + 1, size, n, f);
    var s := Receive(r, n, f);
    ReceiveSteady(r, n, f);
    assert n in s.held;
    TimeoutsStall(s, 0, k);
  }

  /** Two neighbouring complete MPDUs leave together. */
  lemma PairLeaves(r: Ref, n: nat)
    requires Steady(r) && r.start <= n && r.held.Keys == {n, n + 1} && Complete(r, n) && Complete(r, n + 1)
    ensures Recover(r, n).start == n + 2 && Recover(r, n).held == map[]
  {
    var u := Gap(r, n);
    GapDrains(r, n);
    assert u.held == r.held;
    AdvanceDrains(u);
    var v := Advance(u);
    AdvanceDrains(v);
    hide Advance, Gap;
    assert Complete(v, n + 1) && Advance(v).held == map[];
    assert InOrder(u) == InOrder(v) == InOrder(Advance(v)) == Advance(v);
  }

  /** A new MPDU inside the window, not at its start, just waits. */
  lemma StoredBeside(s: Ref, n: nat, g: Frame)
    requires Steady(s) && s.start < n < s.start + s.size && n !in s.held
    ensures Receive(s, n, g).start == s.start && Receive(s, n, g).size == s.size
    ensures Receive(s, n, g).held == s.held[n := Fresh(g)]
  {
    assert n in Store(s, n, g).held;
  }

  lemma ReachTo2047(size: nat)
    requires 2 <= size <= 1024
    ensures Reach(Wrap(SEQ_SPACE + 2049 - size), 2047) == size - 1
  {
    var start := SEQ_SPACE + 2049 - size;
    assert start == 1 * SEQ_SPACE + (2049 - size);
    assert Wrap(start) == 2049 - size;
  }

  lemma FirstOfPair(t: Ref, n: nat)
    requires t.start <= n && t.held.Keys == {n, n + 1} && Complete(t, n)
    ensures Scan(t, t.start, n + 1) == n
  {
    ScanFinds(t, t.start, n + 1);
  }

  /** The next frame that does move win_tail ends it: with number 6143 stored as well, a timeout
      releases both MPDUs. */
  lemma TailCatchesUp(size: nat, f: Frame, g: Frame)
    requires 3 <= size <= 1024 && f.last && g.last
    ensures var (r, n) := (Opened(SEQ_SPACE + 1, size), SEQ_SPACE + 2048);
            var t := Receive(Receive(r, n, f), n - 1, g);
            && NextTail(0, Receive(r, n, f), n - 1, g) == 2047
            && RecoverBy(t, 2047).start == n + 1 && RecoverBy(t, 2047).held == map[]
  {
    var r, n := Opened(SEQ_SPACE + 1, size), SEQ_SPACE + 2048;
    PairWaits(size, f, g);
    TailMoves(Receive(r, n, f), size, f, g);
    var t := Receive(Receive(r, n, f), n - 1, g);
    hide Receive, Opened, Wrap, Reach, Scan, Recover, NextTail, Steady;
    ReachTo2047(size);
    FirstOfPair(t, n - 1);
    PairLeaves(t, n - 1);
  }

  lemma PairWaits(size: nat, f: Frame, g: Frame)
    requires 3 <= size <= 1024 && f.last && g.last
    ensures var (r, n) := (Opened(SEQ_SPACE + 1, size), SEQ_SPACE + 2048);
            var s := Receive(r, n, f); var t := Receive(s, n - 1, g);
            && Steady(s) && s.start == n - size + 1 && s.size == size && s.held == map[n := Fresh(f)]
            && Steady(t) && t.start == n - size + 1 && t.held == map[n := Fresh(f), n - 1 := Fresh(g)]
            && t.held.Keys == {n - 1, n} && Complete(t, n - 1) && Complete(t, n)
  {
    var r, n := Opened(SEQ_SPACE + 1, size), SEQ_SPACE + 2048;
    JumpAlone(SEQ_SPACE + 1, size, n, f);
    ReceiveSteady(r, n, f);
    var s := Receive(r, n, f);
    hide Receive, Opened;
    ReceiveSteady(s, n - 1, g);
    StoredBeside(s, n - 1, g);
  }

  lemma TailMoves(s: Ref, size: nat, f: Frame, g: Frame)
    requires 3 <= size && s.start == SEQ_SPACE + 2049 - size && s.size == size
    requires s.held == map[SEQ_SPACE + 2048 := Fresh(f)] && g.last && size <= 1024
    ensures NextTail(0, s, SEQ_SPACE + 2047, g) == 2047
  {
    assert SEQ_SPACE + 2048 in s.held;
    assert SEQ_SPACE + 2047 == 1 * SEQ_SPACE + 2047;
  }
}
