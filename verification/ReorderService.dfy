/** A block-ack session from its opening to its close, joined to the theorems about every run. */
module ReorderService {
  import opened Common
  import opened SeqNo
  import opened ReorderWindow
  import opened ReorderRing
  import opened ReorderFacts
  import opened ReorderTail
  import opened Reorder
  import opened ReorderRuns
  import opened ReorderDue

  /** The buffers that a list of signals brings. */
  function Given(ws: seq<Signal>): multiset<Buf> {
    if ws == [] then multiset{}
    else (if ws[0].Air? then multiset(ws[0].frame.Bufs()) else multiset{}) + Given(ws[1..])
  }

  function ResetsAsked(ws: seq<Signal>): nat {
    if ws == [] then 0 else (if ws[0].Reset? then 1 else 0) + ResetsAsked(ws[1..])
  }

  lemma {:induction false} MeantBrings(r: Ref, winTail: Seq12, ws: seq<Signal>)
    requires r.start >= HALF_SPACE
    ensures AllOffered(AllMeant(r, winTail, ws)) == Given(ws)
    ensures ResetsIn(AllMeant(r, winTail, ws)) == ResetsAsked(ws)
    decreases |ws|
  {
    if ws != [] {
      var e := Meant(r, winTail, ws[0]);
      StepForward(r, e);
      MeantBringsOne(r, winTail, ws[0]);
      hide Meant, Step, TailAfter, Offered;
      MeantBrings(Step(r, e), TailAfter(winTail, r, e), ws[1..]);
      var es := AllMeant(Step(r, e), TailAfter(winTail, r, e), ws[1..]);
      assert ([e] + es)[1..] == es;
    }
  }

  lemma MeantBringsOne(r: Ref, winTail: Seq12, w: Signal)
    requires r.start >= HALF_SPACE
    ensures var e := Meant(r, winTail, w);
            && Offered(e) == (if w.Air? then multiset(w.frame.Bufs()) else multiset{})
            && (e.ResetPn? <==> w.Reset?)
  {
  }

  /** What the signals mean to a session that an ADDBA request opened at `start`. */
  function Heard(start: Seq12, size: nat, ws: seq<Signal>): seq<Event> {
    AllMeant(Opened(Origin(start), size), Sub(start, 1), ws)
  }

  /** Opens a session, activates it and lets the signals in: releases strictly increase and come when
      due, what the stack got is the passed MPDUs in that order, each made of frames received; every
      buffer given is delivered, freed or in a slot; packet numbers as received rise but for the resets
      asked for, and only replays are freed; one DELBA request is sent if the session closes. */
  method Serve(start: Seq12, size: nat, ws: seq<Signal>) returns (s: Session)
    requires 1 <= size <= HALF_SPACE && Runnable(Opened(Origin(start), size), Heard(start, size, ws))
    ensures fresh(s) && fresh(s.buffer) && s.indexSize <= s.buffer.Length && s.Valid() && (s.active ==> s.TimerOk())
    ensures s.ref == Run(Opened(Origin(start), size), Heard(start, size, ws))
    ensures forall i, j :: 0 <= i < j < |s.ref.log| ==> s.ref.log[i].n < s.ref.log[j].n
    ensures s.delivered == PassedBufs(s.ref.log)
    ensures forall i :: 0 <= i < |s.ref.log| ==> s.ref.log[i].mpdu.bufs == Arrived(s.ref.taken, s.ref.log[i].n)
    ensures multiset(s.delivered) + multiset(s.freed) + multiset(SlotBufs(s.buffer[..s.indexSize])) == Given(ws)
    ensures forall i :: 0 <= i < |s.ref.log| ==>
              Assembles(s.ref.log[i].mpdu, FramesOf(s.ref.taken, s.ref.log[i].n))
    ensures Received(s.ref.taken, Heard(start, size, ws)) && Due(s.ref.log, size, Heard(start, size, ws))
    ensures Descents(PnTrace(s.ref.log)) <= ResetsAsked(ws) && OnlyReplaysRefused(s.ref.log)
    ensures Descents(AirTrace(s.ref.log, s.ref.taken)) <= ResetsAsked(ws)
    ensures OnlyAirReplaysRefused(s.ref.log, s.ref.taken)
    ensures s.delbasSent == if s.active then 0 else 1
  {
    ghost var r, es := Opened(Origin(start), size), Heard(start, size, ws);
    s := new Session(start, size);
    s.Activate();
    StartTail(start, size);
    Drive(s, ws);
    s.CoreFields();
    ServedRun(start, size, es);
    hide Run, Runnable, SlotBufs, Waiting, PnTrace, Arrived, PassedBufs, Assembles, Received, Due, AirTrace;
    hide OnlyAirReplaysRefused;
    ReleaseOrder(Origin(start), size, es);
    Conservation(Origin(start), size, es);
    PnMonotone(Origin(start), size, es);
    MeantBrings(r, Sub(start, 1), ws);
    s.SlotsHoldWaiting();
    s.CountsWaiting();
  }

  lemma ServedRun(start: Seq12, size: nat, es: seq<Event>)
    requires 1 <= size <= HALF_SPACE && Runnable(Opened(Origin(start), size), es)
    ensures var z := Run(Opened(Origin(start), size), es);
            Received(z.taken, es) && Due(z.log, size, es) && z.delbas == if z.active then 0 else 1
  {
    hide Run, Runnable, Due;
    AcceptedWereReceived(Opened(Origin(start), size), es, []);
    assert [] + es == es;
    ReleasedWhenDue(Origin(start), size, es);
    ClosesExactly(Origin(start), size, es);
  }

  lemma StartTail(start: Seq12, size: nat)
    requires 1 <= size <= HALF_SPACE
    ensures Wrap(Tail(Opened(Origin(start), size))) == Sub(start, 1)
    ensures Wrap(Tail(Opened(Origin(start), size).(active := false))) == Sub(start, 1)
  {
    OriginWraps(start, size);
    TailRange(Opened(Origin(start), size));
    TailRange(Opened(Origin(start), size).(active := false));
  }

  // ----- a session that closes while something waits

  /** An unprotected MPDU of one MSDU. */
  function Single(buf: Buf): Frame {
    Frame(true, 0, 0, 0, Some(buf))
  }

  /** Number `a` is missing and the one after it waits. */
  ghost predicate Holed(r: Ref, a: nat) {
    && Steady(r) && r.size >= 4
    && r.start == a >= HALF_SPACE && r.held == map[a + 1 := Fresh(Single(a + 1))]
  }

  /** The next number is missing as well and the one after that waits too. */
  ghost predicate TwiceHoled(r: Ref, a: nat) {
    && Steady(r) && r.size >= 4
    && r.start == a >= HALF_SPACE
    && r.held == map[a + 1 := Fresh(Single(a + 1)), a + 3 := Fresh(Single(a + 3))]
  }

  /** Every second number is lost, and the timer runs out over each loss. */
  function Losses(a: nat, k: nat): seq<Signal>
    decreases k
  {
    if k == 0 then [] else [Air(Wrap(a + 3), Single(a + 3)), Timer] + Losses(a + 2, k - 1)
  }

  lemma HoledTail(r: Ref, a: nat)
    requires Holed(r, a)
    ensures Tail(r) == a + 1
  {
    assert a + 1 in r.held;
    TopIs(r, a + 1);
  }

  lemma NextArrives(r: Ref, a: nat)
    requires Holed(r, a) && r.active
    ensures var e := Meant(r, Wrap(Tail(r)), Air(Wrap(a + 3), Single(a + 3))); var s := Step(r, e);
            && Enabled(r, e)
            && TwiceHoled(s, a) && s.size == r.size && s.active && s.timeouts == r.timeouts
            && TailAfter(Wrap(Tail(r)), r, e) == Wrap(Tail(s))
  {
    UnwrapIsUnique(a, a + 3);
    HoledTail(r, a);
    SignalKeepsStep(r, Air(Wrap(a + 3), Single(a + 3)));
    StoredBeside(r, a + 3, Single(a + 3));
  }

  /** The timeout aims at the first MPDU behind the hole. */
  lemma TimerAims(s: Ref, a: nat)
    requires TwiceHoled(s, a)
    ensures TimerGoal(s, Wrap(Tail(s))) == a + 1
  {
    assert Complete(s, a + 1);
    GoalIsTarget(s);
    TargetIsFirstComplete(s);
  }

  /** The MPDU behind the second hole stays. */
  lemma FlushToHole(s: Ref, a: nat)
    requires TwiceHoled(s, a)
    ensures var u := InOrder(Gap(s, a + 1));
            && Drained(s, u) && Legal(u) && u.start == a + 2 && u.held == map[a + 3 := Fresh(Single(a + 3))]
  {
    hide InOrder, Gap;
    assert Complete(s, a + 1) && !Complete(s, a + 2);
    FlushDrains(s, a + 1);
    assert a + 3 in From(s.held, a + 2);
  }

  lemma TimerFires(s: Ref, a: nat)
    requires TwiceHoled(s, a) && s.active && s.timeouts <= MAX_TIMEOUT_CNT
    ensures var e := Meant(s, Wrap(Tail(s)), Timer); var t := Step(s, e);
            && Enabled(s, e)
            && Holed(t, a + 2) && t.size == s.size
            && (t.active <==> s.timeouts < MAX_TIMEOUT_CNT) && (t.active ==> t.timeouts == s.timeouts + 1)
            && TailAfter(Wrap(Tail(s)), s, e) == Wrap(Tail(t))
  {
    TimerAims(s, a);
    FlushToHole(s, a);
    hide InOrder, Gap, TimerGoal, Tail, Legal, Wrap;
    assert a + 1 in s.held;
    SignalKeepsStep(s, Timer);
    assert a + 3 in InOrder(Gap(s, a + 1)).held;
  }

  /** One loss and its timeout, in front of any other signals. */
  lemma OneLoss(r: Ref, a: nat, rest: seq<Signal>) returns (t: Ref)
    requires Holed(r, a) && r.active && r.timeouts <= MAX_TIMEOUT_CNT
    ensures Holed(t, a + 2) && t.start >= HALF_SPACE && t.size == r.size
    ensures (t.active <==> r.timeouts < MAX_TIMEOUT_CNT) && (t.active ==> t.timeouts == r.timeouts + 1)
    ensures var es := AllMeant(r, Wrap(Tail(r)), [Air(Wrap(a + 3), Single(a + 3)), Timer] + rest);
            var es' := AllMeant(t, Wrap(Tail(t)), rest);
            (Runnable(r, es) <==> Runnable(t, es')) && Run(r, es) == Run(t, es')
  {
    NextArrives(r, a);
    var w := Air(Wrap(a + 3), Single(a + 3));
    HoledStart(r, a);
    hide Meant, Enabled, Holed, TwiceHoled, TailAfter, Step, Unwrap, Tail, AllMeant, Runnable, Run, Wrap;
    var m := Wrap(Tail(r));
    var e := Meant(r, m, w);
    StepForward(r, e);
    var s := Step(r, e);
    TimerFires(s, a);
    t := Step(s, Meant(s, Wrap(Tail(s)), Timer));
    HoledStart(t, a + 2);
    RunOne(s, Wrap(Tail(s)), Timer, rest);
    RunOne(r, m, w, [Timer] + rest);
    assert [w] + ([Timer] + rest) == [w, Timer] + rest;
  }

  /** The signals can all happen, and in the end one MPDU waits behind one hole. */
  ghost predicate Survives(r: Ref, ws: seq<Signal>, a: nat, active: bool)
    requires r.start >= HALF_SPACE
  {
    var es := AllMeant(r, Wrap(Tail(r)), ws);
    Runnable(r, es) && Holed(Run(r, es), a) && Run(r, es).size == r.size && Run(r, es).active == active
  }

  /** As long as the retry counter lasts the same picture comes back two numbers further on. */
  lemma {:induction false} LossesRun(r: Ref, a: nat, k: nat)
    requires Holed(r, a) && r.active && 1 <= k && r.timeouts + k <= MAX_TIMEOUT_CNT + 1
    ensures Survives(r, Losses(a, k), a + 2 * k, r.timeouts + k <= MAX_TIMEOUT_CNT)
    decreases k
  {
    hide Holed, Tail, AllMeant, Runnable, Run, Wrap;
    var rest := Losses(a + 2, k - 1);
    var t := OneLoss(r, a, rest);
    if k > 1 {
      LossesRun(t, a + 2, k - 1);
    } else {
      NothingLeft(t, Wrap(Tail(t)));
    }
  }

  lemma HoledStart(r: Ref, a: nat)
    requires Holed(r, a)
    ensures r.start == a >= HALF_SPACE
  {
  }

  lemma NothingLeft(r: Ref, winTail: Seq12)
    requires r.start >= HALF_SPACE
    ensures AllMeant(r, winTail, []) == [] && Runnable(r, []) && Run(r, []) == r
  {
  }

  /** A first MPDU behind a hole, and then 61 losses: the signals that close a session by itself. */
  function ClosingSignals(start: Seq12): seq<Signal> {
    var a := Origin(start);
    [Air(Wrap(a + 1), Single(a + 1))] + Losses(a, MAX_TIMEOUT_CNT + 1)
  }

  /** The buffer that arrived last. */
  function LeftOver(start: Seq12): Buf {
    Origin(start) + 2 * MAX_TIMEOUT_CNT + 3
  }

  /** They leave the session closed with one MPDU still waiting. */
  lemma ClosesWhileWaiting(start: Seq12, size: nat)
    requires 4 <= size <= HALF_SPACE
    ensures var r, es := Opened(Origin(start), size), Heard(start, size, ClosingSignals(start));
            && Runnable(r, es) && !Run(r, es).active
            && Waiting(Run(r, es)) == multiset{LeftOver(start)}
  {
    hide Holed, Meant, Step, Enabled, Losses, TailAfter, Tail, Origin, Wrap, Unwrap, Run, Runnable, AllMeant, Waiting;
    var r, a := Opened(Origin(start), size), Origin(start);
    var w, rest := Air(Wrap(a + 1), Single(a + 1)), Losses(a, MAX_TIMEOUT_CNT + 1);
    FirstBehindHole(start, size);
    var s := Step(r, Meant(r, Sub(start, 1), w));
    LossesRun(s, a, MAX_TIMEOUT_CNT + 1);
    RunOne(r, Sub(start, 1), w, rest);
    OneWaits(Run(r, Heard(start, size, ClosingSignals(start))), a + 2 * (MAX_TIMEOUT_CNT + 1));
  }

  /** One signal and the rest of a run. */
  lemma RunOne(r: Ref, winTail: Seq12, w: Signal, rest: seq<Signal>)
    requires r.start >= HALF_SPACE
    ensures var e := Meant(r, winTail, w); var (s, m) := (Step(r, e), TailAfter(winTail, r, e));
            var es, es' := AllMeant(r, winTail, [w] + rest), AllMeant(s, m, rest);
            && (Runnable(r, es) <==> Enabled(r, e) && Runnable(s, es'))
            && Run(r, es) == Run(s, es')
  {
    hide Meant, Enabled, TailAfter, Step;
    var e := Meant(r, winTail, w);
    StepForward(r, e);
    var es' := AllMeant(Step(r, e), TailAfter(winTail, r, e), rest);
    assert ([w] + rest)[1..] == rest;
    assert ([e] + es')[1..] == es';
  }

  lemma FirstBehindHole(start: Seq12, size: nat)
    requires 4 <= size <= HALF_SPACE
    ensures var (r, a) := (Opened(Origin(start), size), Origin(start));
            var e := Meant(r, Sub(start, 1), Air(Wrap(a + 1), Single(a + 1)));
            && Enabled(r, e) && Holed(Step(r, e), a) && Step(r, e).active && Step(r, e).timeouts == 0
            && TailAfter(Sub(start, 1), r, e) == Wrap(Tail(Step(r, e)))
  {
    var r, a := Opened(Origin(start), size), Origin(start);
    UnwrapIsUnique(a, a + 1);
    StartTail(start, size);
    SignalKeepsStep(r, Air(Wrap(a + 1), Single(a + 1)));
    StoredBeside(r, a + 1, Single(a + 1));
  }

  lemma OneWaits(r: Ref, a: nat)
    requires Holed(r, a)
    ensures Waiting(r) == multiset{a + 1}
  {
    OneHeld(r.held, a);
    hide HeldBufs, BufsAt, Within;
    WaitingUpTo(r.held, a, a + 2, a + r.size);
  }

  lemma OneHeld(held: map<nat, Mpdu>, a: nat)
    requires held == map[a + 1 := Fresh(Single(a + 1))]
    ensures HeldBufs(held, a, a + 2) == multiset{a + 1}
  {
    assert HeldBufs(held, a + 1, a + 2) == BufsAt(held, a + 1) + multiset{};
    assert HeldBufs(held, a, a + 2) == BufsAt(held, a) + HeldBufs(held, a + 1, a + 2);
  }

  /** A session that closed by itself and is then removed: one of the buffers given to it is neither
      delivered nor freed. */
  method CloseThenRemove(start: Seq12, size: nat) returns (s: Session)
    requires 4 <= size <= HALF_SPACE
    ensures multiset(s.delivered) + multiset(s.freed) + multiset{LeftOver(start)}
         == Given(ClosingSignals(start))
  {
    ClosesWhileWaiting(start, size);
    hide Run, Runnable, AllMeant, Waiting, ClosingSignals, Origin;
    s := Serve(start, size, ClosingSignals(start));
    s.SlotsHoldWaiting();
    s.CountsWaiting();
    s.WlanDelbaEvent();
  }

  lemma WaitingMeansHeld(r: Ref)
    requires Waiting(r) != multiset{}
    ensures r.held != map[]
  {
    if r.held == map[] {
      WaitingUpTo(r.held, r.start, r.start, r.start + r.size);
    }
  }

  /** A session that closed by itself and is then opened again: its counter says that nothing waits
      while a slot is still filled. */
  method CloseThenReopen(start: Seq12, size: nat, again: Seq12) returns (s: Session)
    requires 4 <= size <= HALF_SPACE
    ensures !s.Valid() && s.indexSize <= s.buffer.Length && s.buffCnt == 0 < Occupied(s.buffer[..s.indexSize])
  {
    ClosesWhileWaiting(start, size);
    hide Run, Runnable, AllMeant, Waiting, ClosingSignals, Origin, Given, PnTrace, Arrived, PassedBufs;
    s := Serve(start, size, ClosingSignals(start));
    WaitingMeansHeld(s.ref);
    s.CountsWaiting();
    s.CountsSlots();
    hide Occupied, Wrap, Steady, Rep, Legal;
    s.WlanAddbaAgain(again, s.winSize);
  }
}
