/** When an MPDU may leave the window, and when a session closes. */
module ReorderDue {
  import opened SeqNo
  import opened ReorderWindow
  import opened ReorderFacts
  import opened ReorderRuns

  // ----- no number leaves before it is due

  /** A frame moves the window over a number only if that number falls out of the window that ends at
      the frame's, or its MPDU is complete, or the frame itself completes it. */
  lemma ReceiveDue(r: Ref, n: nat, f: Frame)
    requires Steady(r)
    ensures forall k :: r.start <= k < Receive(r, n, f).start ==>
              k + r.size <= n || Complete(r, k) || (k == n && f.last)
  {
    if n >= r.start {
      var room := MakeRoom(r, n);
      RoomDrains(r, n);
      DrainedLegal(r, room);
      hide InOrder, MakeRoom, Legal;
      assert forall k :: Complete(room, k) ==> Complete(r, k);
      if Takes(room, n, f) { StoreDue(room, n, f); }
    }
  }

  /** Once stored, a frame that does not complete the MPDU at the start moves nothing. */
  lemma StoreDue(r: Ref, n: nat, f: Frame)
    requires Legal(r) && r.start <= n < r.start + r.size
    ensures forall k :: r.start <= k < InOrder(Store(r, n, f)).start ==> Complete(r, k) || (k == n && f.last)
  {
    var s := Store(r, n, f);
    StoreLegal(r, n, f);
    InOrderDrains(s);
    hide InOrder, Legal;
    assert Complete(s, n) ==> f.last;
    assert forall k :: k != n && Complete(s, k) ==> Complete(r, k);
  }

  /** A timeout that aims at `goal` moves the window over numbers before it and over complete MPDUs. */
  lemma RecoverDue(r: Ref, goal: nat)
    requires Steady(r) && goal >= r.start
    ensures forall k :: r.start <= k < Recover(r, goal).start ==> k < goal || Complete(r, k)
  {
    FlushDrains(r, goal);
  }

  // ----- over runs

  /** The log goes on from where it was. */
  ghost predicate Extends(r: Ref, s: Ref) {
    |r.log| <= |s.log| && s.log[..|r.log|] == r.log
  }

  lemma ExtendsTrans(r: Ref, s: Ref, t: Ref)
    requires Extends(r, s) && Extends(s, t)
    ensures Extends(r, t)
    ensures forall i :: 0 <= i < |s.log| ==> t.log[i] == s.log[i]
  {
    assert t.log[..|s.log|][..|r.log|] == t.log[..|r.log|];
    assert forall i :: 0 <= i < |s.log| ==> t.log[i] == t.log[..|s.log|][i];
  }

  lemma {:induction false} InOrderLogs(r: Ref)
    ensures Extends(r, InOrder(r))
    ensures forall i :: |r.log| <= i < |InOrder(r).log| ==> InOrder(r).log[i].mpdu.last
    decreases r.held.Keys
  {
    if Complete(r, r.start) {
      AdvanceFields(r);
      assert r.start in r.held.Keys && r.start !in Advance(r).held.Keys;
      hide Advance;
      InOrderLogs(Advance(r));
      ExtendsTrans(r, Advance(r), InOrder(r));
    }
  }

  lemma {:induction false} GapLogs(r: Ref, goal: nat)
    ensures Extends(r, Gap(r, goal))
    ensures forall i :: |r.log| <= i < |Gap(r, goal).log| ==> Gap(r, goal).log[i].n < goal
    decreases goal - r.start
  {
    if r.start < goal {
      AdvanceFields(r);
      hide Advance;
      GapLogs(Advance(r), goal);
      ExtendsTrans(r, Advance(r), Gap(r, goal));
    }
  }

  lemma FlushLogs(r: Ref, goal: nat)
    ensures var s := InOrder(Gap(r, goal));
            Extends(r, s) && forall i :: |r.log| <= i < |s.log| ==> s.log[i].mpdu.last || s.log[i].n < goal
  {
    GapLogs(r, goal);
    InOrderLogs(Gap(r, goal));
    ExtendsTrans(r, Gap(r, goal), InOrder(Gap(r, goal)));
  }

  /** The event drops number n: a frame at least a window ahead of it, or a timeout that aims past it. */
  predicate Drops(e: Event, size: nat, n: nat) {
    (e.Rx? && n + size <= e.n) || (e.Expire? && n < e.goal)
  }

  lemma StepLogs(r: Ref, e: Event)
    ensures var s := Step(r, e);
            && Extends(r, s)
            && forall i :: |r.log| <= i < |s.log| ==> s.log[i].mpdu.last || Drops(e, r.size, s.log[i].n)
  {
    hide InOrder, Gap;
    match e
    case Rx(n, f) =>
      var room := if n >= r.start then MakeRoom(r, n) else r;
      if n >= r.start + r.size { FlushLogs(r, n - r.size + 1); }
      if Takes(room, n, f) {
        var s := Store(room, n, f);
        InOrderLogs(s);
        ExtendsTrans(r, s, InOrder(s));
      }
    case Expire(goal) =>
      FlushLogs(r, goal);
    case ResetPn =>
  }

  /** Each release is of a complete MPDU, or some event dropped its number. */
  ghost predicate Due(log: seq<Release>, size: nat, es: seq<Event>) {
    forall i :: 0 <= i < |log| && !log[i].mpdu.last ==>
      exists j :: 0 <= j < |es| && Drops(es[j], size, log[i].n)
  }

  lemma StepDue(r: Ref, e: Event, past: seq<Event>)
    requires Due(r.log, r.size, past)
    ensures Due(Step(r, e).log, r.size, past + [e])
  {
    StepLogs(r, e);
    var s := Step(r, e);
    hide Step, Drops;
    forall i | 0 <= i < |s.log| && !s.log[i].mpdu.last
      ensures exists j :: 0 <= j < |past + [e]| && Drops((past + [e])[j], r.size, s.log[i].n)
    {
      if i < |r.log| {
        assert s.log[..|r.log|][i] == r.log[i];
        var j :| 0 <= j < |past| && Drops(past[j], r.size, r.log[i].n);
        assert (past + [e])[j] == past[j];
      } else {
        assert (past + [e])[|past|] == e;
      }
    }
  }

  lemma {:induction false} RunDue(r: Ref, es: seq<Event>, past: seq<Event>)
    requires Steady(r) && Runnable(r, es) && Due(r.log, r.size, past)
    ensures Due(Run(r, es).log, r.size, past + es)
    decreases |es|
  {
    if es == [] {
      assert past + es == past;
    } else {
      StepDue(r, es[0], past);
      StepSize(r, es[0]);
      hide Step, Enabled, Steady, Due;
      RunDue(Step(r, es[0]), es[1..], past + [es[0]]);
      assert past + [es[0]] + es[1..] == past + es;
    }
  }

  lemma StepSize(r: Ref, e: Event)
    requires Steady(r) && Enabled(r, e)
    ensures Steady(Step(r, e)) && Step(r, e).size == r.size
  {
    match e
    case Rx(n, f) => ReceiveSteady(r, n, f);
    case Expire(goal) => RecoverSteady(r, goal);
    case ResetPn =>
  }

  /** Over every run of a session an MPDU leaves incomplete only if a frame at least a window ahead of
      it arrived, or a timeout aimed past it. */
  lemma ReleasedWhenDue(start: nat, size: nat, es: seq<Event>)
    requires 1 <= size <= HALF_SPACE && Runnable(Opened(start, size), es)
    ensures Due(Run(Opened(start, size), es).log, size, es)
  {
    RunDue(Opened(start, size), es, []);
    assert [] + es == es;
  }

  // ----- closing

  lemma {:induction false} RunSnoc(r: Ref, es: seq<Event>)
    requires es != []
    ensures var p, e := es[..|es| - 1], es[|es| - 1];
            && Run(r, es) == Step(Run(r, p), e)
            && (Runnable(r, es) <==> Runnable(r, p) && Enabled(Run(r, p), e))
    decreases |es|
  {
    hide Step, Enabled;
    var p, e := es[..|es| - 1], es[|es| - 1];
    if |es| == 1 {
      assert es[1..] == [] && Run(r, es) == Run(Step(r, e), []);
    } else {
      assert es[1..][..|es[1..]| - 1] == p[1..];
      RunSnoc(Step(r, es[0]), es[1..]);
    }
  }

  /** How many timeouts the run has seen since the window was last empty. */
  function Streak(r: Ref, es: seq<Event>): nat
    decreases |es|
  {
    if es == [] || Run(r, es).held == map[] then 0
    else Streak(r, es[..|es| - 1]) + (if es[|es| - 1].Expire? then 1 else 0)
  }

  /** One event and the retry counter. */
  lemma StepCounts(r: Ref, e: Event)
    requires Steady(r) && Enabled(r, e)
    ensures var s := Step(r, e);
            && (s.held == map[] ==> s.timeouts == 0)
            && (!e.Expire? ==> s.active && s.delbas == r.delbas && (s.held != map[] ==> s.timeouts == r.timeouts))
            && (e.Expire? && r.timeouts < 60 ==>
                  s.active && s.delbas == r.delbas && (s.held != map[] ==> s.timeouts == r.timeouts + 1))
            && (e.Expire? && r.timeouts >= 60 ==> !s.active && s.delbas == r.delbas + 1)
  {
    match e
    case Rx(n, f) =>
      if n >= r.start {
        RoomDrains(r, n);
        var room := MakeRoom(r, n);
        DrainedLegal(r, room);
        if Takes(room, n, f) {
          StoreLegal(room, n, f);
          InOrderDrains(Store(room, n, f));
        }
      }
    case Expire(goal) =>
      FlushDrains(r, goal);
    case ResetPn =>
  }

  lemma {:induction false} RunCounts(start: nat, size: nat, es: seq<Event>)
    requires 1 <= size <= HALF_SPACE && Runnable(Opened(start, size), es)
    ensures var r := Opened(start, size); var z := Run(r, es);
            && Steady(z)
            && z.delbas == (if z.active then 0 else 1)
            && (z.active ==> z.timeouts == Streak(r, es))
            && (!z.active <==>
                  es != [] && es[|es| - 1].Expire? && Streak(r, es[..|es| - 1]) == 60)
            && (z.active ==> z.timeouts <= 60)
    decreases |es|
  {
    var r := Opened(start, size);
    if es != [] {
      var p := es[..|es| - 1];
      RunSnoc(r, es);
      RunCounts(start, size, p);
      StepSize(Run(r, p), es[|es| - 1]);
      StepCounts(Run(r, p), es[|es| - 1]);
      hide Step, Steady, Run, Runnable, Opened;
    }
  }

  /** Over every run a session closes, and sends its one DELBA request, exactly at the sixty-first
      timeout since its window was last empty. */
  lemma ClosesExactly(start: nat, size: nat, es: seq<Event>)
    requires 1 <= size <= HALF_SPACE && Runnable(Opened(start, size), es)
    ensures var r := Opened(start, size); var z := Run(r, es);
            && (!z.active <==> es != [] && es[|es| - 1].Expire? && Streak(r, es[..|es| - 1]) == 60)
            && z.delbas == (if z.active then 0 else 1)
  {
    RunCounts(start, size, es);
  }
}
