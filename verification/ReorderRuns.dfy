/** What holds over every run of an active session: release order, arrival order inside an MPDU,
    conservation of buffers, and packet-number monotonicity. */
module ReorderRuns {
  import opened Common
  import opened SeqNo
  import opened ReorderWindow
  import opened ReorderFacts
  import opened ReorderRing

  // ----- release order

  /** Releases carry strictly increasing sequence numbers, all before `start`. */
  ghost predicate Increasing(log: seq<Release>, start: nat) {
    && (forall i, j :: 0 <= i < j < |log| ==> log[i].n < log[j].n)
    && (forall i :: 0 <= i < |log| ==> log[i].n < start)
  }

  /** The buffers handed up: MPDU after MPDU, those that failed the replay check left out. */
  function PassedBufs(log: seq<Release>): seq<Buf> {
    if log == [] then []
    else PassedBufs(log[..|log| - 1]) + (if log[|log| - 1].passed then log[|log| - 1].mpdu.bufs else [])
  }

  // ----- arrival order

  /** The frames accepted under number n, in arrival order. */
  function FramesOf(taken: seq<Taken>, n: nat): seq<Frame> {
    if taken == [] then []
    else FramesOf(taken[..|taken| - 1], n) + (if taken[|taken| - 1].n == n then [taken[|taken| - 1].frame] else [])
  }

  function BufsOf(fs: seq<Frame>): seq<Buf> {
    if fs == [] then [] else BufsOf(fs[..|fs| - 1]) + fs[|fs| - 1].Bufs()
  }

  /** The buffers accepted under number n, in arrival order. */
  function Arrived(taken: seq<Taken>, n: nat): seq<Buf> {
    BufsOf(FramesOf(taken, n))
  }

  /** The MPDU is what these frames carry: their buffers in order, cipher and packet number of the
      first one, complete if and only if the newest one was announced as the last. Under TKIP and CCMP
      all of them carry that packet number. */
  ghost predicate Assembles(m: Mpdu, fs: seq<Frame>) {
    && fs != [] && m.bufs == BufsOf(fs) && m.count == |fs|
    && m.cipher == fs[0].cipher && m.pnL == fs[0].pnL && m.pnH == fs[0].pnH
    && m.last == fs[|fs| - 1].last && (forall i :: 0 <= i < |fs| - 1 ==> !fs[i].last)
    && (m.cipher == 1 || m.cipher == 2 ==>
          forall i :: 0 <= i < |fs| ==> fs[i].pnL == fs[0].pnL && fs[i].pnH == fs[0].pnH)
  }

  /** The MPDU released under number n. */
  function Logged(log: seq<Release>, n: nat): Option<Mpdu> {
    if log == [] then None
    else if log[|log| - 1].n == n then Some(log[|log| - 1].mpdu)
    else Logged(log[..|log| - 1], n)
  }

  function Gathered(held: map<nat, Mpdu>, log: seq<Release>, n: nat): Option<Mpdu> {
    if n in held then Some(held[n]) else Logged(log, n)
  }

  ghost predicate MadeOf(m: Option<Mpdu>, fs: seq<Frame>) {
    if m.None? then fs == [] else Assembles(m.value, fs)
  }

  /** Every MPDU, waiting or released, is made of the accepted frames of its number in arrival order. */
  ghost predicate InArrivalOrder(held: map<nat, Mpdu>, log: seq<Release>, taken: seq<Taken>) {
    forall n: nat :: MadeOf(Gathered(held, log, n), FramesOf(taken, n))
  }

  // ----- conservation

  /** Every buffer the session is responsible for. */
  function Accounted(r: Ref): multiset<Buf> {
    multiset(r.delivered) + multiset(r.freed) + Waiting(r)
  }

  // ----- packet numbers

  function Pn(low: nat, high: nat): nat {
    high * PN_LOW_SPACE + low
  }

  /** The packet numbers that passed the replay check, oldest first, from the initial zero on. */
  function PnTrace(log: seq<Release>): seq<nat> {
    if log == [] then [0]
    else
      var e := log[|log| - 1];
      PnTrace(log[..|log| - 1]) +
      (if e.passed && e.mpdu.bufs != [] && Protected(e.mpdu.cipher) then [Pn(e.mpdu.pnL, e.mpdu.pnH)] else [])
  }

  /** How often a number does not exceed the one before it. */
  function Descents(s: seq<nat>): nat {
    if |s| <= 1 then 0
    else Descents(s[..|s| - 1]) + (if s[|s| - 1] > s[|s| - 2] then 0 else 1)
  }

  /** The replay counter is the last number that passed, and each descent used up one reset. */
  ghost predicate PnTracked(replay: Replay, log: seq<Release>, resets: nat) {
    && replay.pnL < PN_LOW_SPACE && replay.pnH < PN_HIGH_SPACE
    && PnTrace(log) != []
    && PnTrace(log)[|PnTrace(log)| - 1] == Pn(replay.pnL, replay.pnH)
    && Descents(PnTrace(log)) + (if replay.reset then 1 else 0) <= resets
  }

  ghost predicate PnsFit(held: map<nat, Mpdu>) {
    forall n :: n in held ==> held[n].pnL < PN_LOW_SPACE && held[n].pnH < PN_HIGH_SPACE
  }

  /** The replay check in terms of 48-bit packet numbers. A requested reset takes effect only for a
      number that is not larger in either half. */
  lemma CheckIsOrder(r: Replay, pnL: nat, pnH: nat, cipher: nat)
    requires r.pnL < PN_LOW_SPACE && pnL < PN_LOW_SPACE && Protected(cipher)
    ensures var resets := r.reset && pnL <= r.pnL && pnH <= r.pnH;
            Check(r, pnL, pnH, cipher) ==
              if resets then (true, Replay(pnL, pnH, false))
              else if Pn(pnL, pnH) > Pn(r.pnL, r.pnH) then (true, Replay(pnL, pnH, r.reset))
              else (false, r)
  {
  }

  /** After a reset request a smaller packet number is accepted if and only if both of its halves
      are no larger; a station that restarts with a larger low half stays locked out. */
  lemma ResetAcceptance(r: Replay, pnL: nat, pnH: nat, cipher: nat)
    requires r.pnL < PN_LOW_SPACE && pnL < PN_LOW_SPACE && Protected(cipher) && r.reset
    requires Pn(pnL, pnH) <= Pn(r.pnL, r.pnH)
    ensures Check(r, pnL, pnH, cipher).0 <==> pnL <= r.pnL && pnH <= r.pnH
    ensures !Check(Replay(5, 1, true), 7, 0, CIPHER_CCMP).0
  {
    CheckIsOrder(r, pnL, pnH, cipher);
  }

  /** Only replays are refused: a release that did not pass carried buffers under TKIP or CCMP and a
      packet number not above the last one that had passed. */
  ghost predicate OnlyReplaysRefused(log: seq<Release>) {
    forall i :: 0 <= i < |log| && !log[i].passed ==> IsReplay(log[i].mpdu, PnTrace(log[..i]))
  }

  predicate IsReplay(m: Mpdu, trace: seq<nat>) {
    m.bufs != [] && Protected(m.cipher) && trace != [] && Pn(m.pnL, m.pnH) <= trace[|trace| - 1]
  }

  // ----- everything at once

  ghost predicate Sound(r: Ref, given: multiset<Buf>) {
    && Increasing(r.log, r.start)
    && r.delivered == PassedBufs(r.log)
    && InArrivalOrder(r.held, r.log, r.taken)
    && Accounted(r) == given
    && PnTracked(r.replay, r.log, r.resets)
    && PnsFit(r.held)
    && OnlyReplaysRefused(r.log)
  }

  /** The replay verdict on an MPDU about to be released. */
  function Passes(r: Ref, m: Mpdu): bool {
    m.bufs == [] || Check(r.replay, m.pnL, m.pnH, m.cipher).0
  }

  function Kept(passed: bool, bufs: seq<Buf>): seq<Buf> {
    if passed then bufs else []
  }

  /** One step of the window start, field by field. */
  lemma AdvanceFields(r: Ref)
    ensures var s := Advance(r);
      && s.start == r.start + 1 && s.size == r.size && s.taken == r.taken && s.resets == r.resets
      && s.held == r.held - {r.start}
      && (r.start !in r.held ==> s == r.(start := r.start + 1))
      && (r.start in r.held ==>
            var m := r.held[r.start];
            var ok := Passes(r, m);
            && s.log == r.log + [Release(r.start, m, ok)]
            && s.delivered == r.delivered + Kept(ok, m.bufs)
            && s.freed == r.freed + Kept(!ok, m.bufs)
            && s.replay == if m.bufs == [] then r.replay else Check(r.replay, m.pnL, m.pnH, m.cipher).1)
  {
    if r.start !in r.held { assert r.held - {r.start} == r.held; }
  }

  lemma {:induction false} NotLogged(log: seq<Release>, n: nat)
    requires forall i :: 0 <= i < |log| ==> log[i].n != n
    ensures Logged(log, n) == None
  {
    if log != [] { NotLogged(log[..|log| - 1], n); }
  }

  lemma {:induction false} WaitingUpTo(held: map<nat, Mpdu>, lo: nat, mid: nat, hi: nat)
    requires lo <= mid <= hi && forall n :: mid <= n < hi ==> n !in held
    ensures HeldBufs(held, lo, hi) == HeldBufs(held, lo, mid)
    decreases hi - lo
  {
    if lo < mid { WaitingUpTo(held, lo + 1, mid, hi); }
    else if lo < hi { WaitingUpTo(held, lo + 1, lo + 1, hi); }
  }

  lemma HeldBufsShift(held: map<nat, Mpdu>, lo: nat, hi: nat)
    requires lo < hi && forall n :: n in held ==> n < hi
    ensures HeldBufs(held, lo, hi) ==
            BufsAt(held, lo) + HeldBufs(held - {lo}, lo + 1, hi + 1)
  {
    hide BufsAt;
    HeldBufsAbove(held, held - {lo}, lo + 1, hi);
    WaitingUpTo(held - {lo}, lo + 1, hi, hi + 1);
  }

  lemma AdvanceAccounted(r: Ref)
    requires Legal(r)
    ensures Accounted(Advance(r)) == Accounted(r)
  {
    hide Advance, Check, HeldBufs;
    AdvanceFields(r);
    HeldBufsShift(r.held, r.start, r.start + r.size);
    assert r.start !in r.held ==> r.held - {r.start} == r.held;
  }

  /** Releasing the number just below the new start keeps every MPDU's buffers in place. */
  lemma LogArrival(held: map<nat, Mpdu>, log: seq<Release>, taken: seq<Taken>, n: nat, passed: bool)
    requires n in held && InArrivalOrder(held, log, taken)
    ensures InArrivalOrder(held - {n}, log + [Release(n, held[n], passed)], taken)
  {
    var log' := log + [Release(n, held[n], passed)];
    assert log'[..|log|] == log;
    forall k: nat
      ensures MadeOf(Gathered(held - {n}, log', k), FramesOf(taken, k))
    {
      assert MadeOf(Gathered(held, log, k), FramesOf(taken, k));
    }
  }

  lemma DescentsAppend(s: seq<nat>, x: nat)
    requires s != []
    ensures Descents(s + [x]) == Descents(s) + (if x > s[|s| - 1] then 0 else 1)
  {
    assert (s + [x])[..|s|] == s;
  }

  lemma LogPn(replay: Replay, log: seq<Release>, resets: nat, n: nat, m: Mpdu)
    requires PnTracked(replay, log, resets) && m.pnL < PN_LOW_SPACE && m.pnH < PN_HIGH_SPACE
    ensures var (ok, replay') := Check(replay, m.pnL, m.pnH, m.cipher);
            if m.bufs == [] then PnTracked(replay, log + [Release(n, m, true)], resets)
            else PnTracked(replay', log + [Release(n, m, ok)], resets)
  {
    var ok := m.bufs == [] || Check(replay, m.pnL, m.pnH, m.cipher).0;
    var log' := log + [Release(n, m, ok)];
    assert log'[..|log'| - 1] == log;
    hide Descents;
    if ok && m.bufs != [] && Protected(m.cipher) {
      CheckIsOrder(replay, m.pnL, m.pnH, m.cipher);
      DescentsAppend(PnTrace(log), Pn(m.pnL, m.pnH));
    } else {
      assert PnTrace(log') == PnTrace(log);
    }
  }

  lemma LogRefused(replay: Replay, log: seq<Release>, resets: nat, n: nat, m: Mpdu)
    requires OnlyReplaysRefused(log) && PnTracked(replay, log, resets) && m.pnL < PN_LOW_SPACE
    ensures OnlyReplaysRefused(log + [Release(n, m, m.bufs == [] || Check(replay, m.pnL, m.pnH, m.cipher).0)])
  {
    var ok := m.bufs == [] || Check(replay, m.pnL, m.pnH, m.cipher).0;
    var log' := log + [Release(n, m, ok)];
    assert forall i :: 0 <= i <= |log| ==> log'[..i] == log[..i];
    assert log'[..|log|] == log;
    if Protected(m.cipher) { CheckIsOrder(replay, m.pnL, m.pnH, m.cipher); }
  }

  lemma LogPassed(log: seq<Release>, e: Release)
    ensures PassedBufs(log + [e]) == PassedBufs(log) + Kept(e.passed, e.mpdu.bufs)
  {
    assert (log + [e])[..|log|] == log;
  }

  lemma AdvanceSound(r: Ref, given: multiset<Buf>)
    requires Legal(r) && Sound(r, given)
    ensures Legal(Advance(r)) && Sound(Advance(r), given)
  {
    hide Advance, Check, InArrivalOrder, PnTracked, Accounted, Within, PassedBufs, OnlyReplaysRefused;
    AdvanceFields(r);
    AdvanceDrains(r);
    DrainedLegal(r, Advance(r));
    AdvanceAccounted(r);
    if r.start in r.held {
      var m := r.held[r.start];
      LogArrival(r.held, r.log, r.taken, r.start, Passes(r, m));
      LogPn(r.replay, r.log, r.resets, r.start, m);
      LogRefused(r.replay, r.log, r.resets, r.start, m);
      LogPassed(r.log, Release(r.start, m, Passes(r, m)));
    }
  }

  lemma {:induction false} InOrderSound(r: Ref, given: multiset<Buf>)
    requires Legal(r) && Sound(r, given)
    ensures Legal(InOrder(r)) && Sound(InOrder(r), given)
    decreases r.held.Keys
  {
    if Complete(r, r.start) {
      AdvanceSound(r, given);
      assert r.start in r.held.Keys && r.start !in Advance(r).held.Keys;
      InOrderSound(Advance(r), given);
    }
  }

  lemma {:induction false} GapSound(r: Ref, goal: nat, given: multiset<Buf>)
    requires Legal(r) && Sound(r, given)
    ensures Legal(Gap(r, goal)) && Sound(Gap(r, goal), given)
    decreases goal - r.start
  {
    if r.start < goal {
      AdvanceSound(r, given);
      GapSound(Advance(r), goal, given);
    }
  }

  lemma {:induction false} HeldBufsPut(held: map<nat, Mpdu>, n: nat, m: Mpdu, more: seq<Buf>, lo: nat, hi: nat)
    requires lo <= n < hi && m.bufs == (if n in held then held[n].bufs else []) + more
    ensures HeldBufs(held[n := m], lo, hi) == HeldBufs(held, lo, hi) + multiset(more)
    decreases hi - lo
  {
    BufsAtPut(held, n, m, more, lo);
    hide BufsAt;
    var here, rest, extra := BufsAt(held, lo), HeldBufs(held, lo + 1, hi), multiset(more);
    Regroup(here, rest, extra);
    if lo == n {
      HeldBufsAbove(held[n := m], held, lo + 1, hi);
      assert HeldBufs(held[n := m], lo, hi) == (here + extra) + rest;
    } else {
      HeldBufsPut(held, n, m, more, lo + 1, hi);
      assert HeldBufs(held[n := m], lo, hi) == here + (rest + extra);
    }
  }

  lemma Regroup(a: multiset<Buf>, b: multiset<Buf>, c: multiset<Buf>)
    ensures (a + c) + b == (a + b) + c && a + (b + c) == (a + b) + c
  {
  }

  lemma BufsAtPut(held: map<nat, Mpdu>, n: nat, m: Mpdu, more: seq<Buf>, k: nat)
    requires m.bufs == (if n in held then held[n].bufs else []) + more
    ensures BufsAt(held[n := m], k) == if k == n then BufsAt(held, k) + multiset(more) else BufsAt(held, k)
  {
    if k != n { assert k in held[n := m] <==> k in held; }
  }

  lemma FreshAssembles(f: Frame)
    ensures Assembles(Fresh(f), [f])
  {
    assert BufsOf([f][..0]) == [];
  }

  lemma JoinedAssembles(m: Mpdu, fs: seq<Frame>, f: Frame)
    requires Assembles(m, fs) && !m.last && SamePn(m, f)
    ensures Assembles(Joined(m, f), fs + [f])
  {
    assert (fs + [f])[..|fs|] == fs;
  }

  lemma TakeArrival(held: map<nat, Mpdu>, log: seq<Release>, taken: seq<Taken>, n: nat, f: Frame)
    requires InArrivalOrder(held, log, taken)
    requires forall i :: 0 <= i < |log| ==> log[i].n != n
    requires n in held ==> !held[n].last && SamePn(held[n], f)
    ensures var m := if n in held then Joined(held[n], f) else Fresh(f);
            InArrivalOrder(held[n := m], log, taken + [Taken(n, f)])
  {
    var m := if n in held then Joined(held[n], f) else Fresh(f);
    var taken' := taken + [Taken(n, f)];
    assert taken'[..|taken|] == taken && taken'[|taken|] == Taken(n, f);
    NotLogged(log, n);
    FreshAssembles(f);
    hide Assembles;
    forall k: nat
      ensures MadeOf(Gathered(held[n := m], log, k), FramesOf(taken', k))
    {
      assert MadeOf(Gathered(held, log, k), FramesOf(taken, k));
      assert FramesOf(taken', k) == FramesOf(taken, k) + (if n == k then [f] else []);
      if k != n {
        assert FramesOf(taken', k) == FramesOf(taken, k);
      } else if n in held {
        JoinedAssembles(held[n], FramesOf(taken, n), f);
        assert Gathered(held[n := m], log, k) == Some(Joined(held[n], f));
      } else {
        assert FramesOf(taken', n) == [f];
        assert Gathered(held[n := m], log, k) == Some(Fresh(f));
      }
    }
  }

  lemma StoreSound(r: Ref, n: nat, f: Frame, given: multiset<Buf>)
    requires Legal(r) && Sound(r, given) && WellFormed(f) && r.start <= n < r.start + r.size && Takes(r, n, f)
    ensures Sound(Store(r, n, f), given + multiset(f.Bufs()))
  {
    hide InArrivalOrder, PnTracked, PassedBufs, HeldBufs, OnlyReplaysRefused;
    var s := Store(r, n, f);
    TakeArrival(r.held, r.log, r.taken, n, f);
    HeldBufsPut(r.held, n, s.held[n], f.Bufs(), r.start, r.start + r.size);
  }

  lemma FreeSound(r: Ref, bufs: seq<Buf>, given: multiset<Buf>)
    requires Sound(r, given)
    ensures Sound(r.(freed := r.freed + bufs), given + multiset(bufs))
  {
  }

  /** The retry counter plays no part. */
  lemma SettleSound(r: Ref, s: Ref, given: multiset<Buf>)
    requires Sound(r, given) && s == r.(timeouts := s.timeouts, active := s.active, delbas := s.delbas)
    ensures Sound(s, given)
  {
  }

  lemma RoomSound(r: Ref, n: nat, given: multiset<Buf>)
    requires Steady(r) && Sound(r, given) && n >= r.start
    ensures Sound(MakeRoom(r, n), given)
  {
    if n >= r.start + r.size {
      GapSound(r, n - r.size + 1, given);
      InOrderSound(Gap(r, n - r.size + 1), given);
    }
  }

  lemma ReceiveSound(r: Ref, n: nat, f: Frame, given: multiset<Buf>)
    requires Steady(r) && Sound(r, given) && WellFormed(f)
    ensures Sound(Receive(r, n, f), given + multiset(f.Bufs()))
  {
    hide Sound, Legal, MakeRoom;
    var room, given' := r, given + multiset(f.Bufs());
    if n >= r.start {
      room := MakeRoom(r, n);
      RoomDrains(r, n);
      RoomSound(r, n, given);
      DrainedLegal(r, room);
    }
    if !Takes(room, n, f) {
      FreeSound(room, f.Bufs(), given);
      var s := room.(freed := room.freed + f.Bufs());
      SettleSound(s, Settle(s), given');
    } else {
      var s := Store(room, n, f);
      StoreSound(room, n, f, given);
      StoreLegal(room, n, f);
      InOrderSound(s, given');
      var t := if f.last && n == s.start then InOrder(s) else s;
      SettleSound(t, Settle(t), given');
    }
  }

  lemma RecoverSound(r: Ref, goal: nat, given: multiset<Buf>)
    requires Steady(r) && Sound(r, given)
    ensures Sound(Recover(r, goal), given)
  {
    var g := Gap(r, goal);
    GapSound(r, goal, given);
    InOrderSound(g, given);
    SettleSound(InOrder(g), Recover(r, goal), given);
  }

  /** The buffer that an event hands to the session. */
  function Offered(e: Event): multiset<Buf> {
    match e
    case Rx(_, f) => multiset(f.Bufs())
    case Expire(_) => multiset{}
    case ResetPn => multiset{}
  }

  function AllOffered(es: seq<Event>): multiset<Buf> {
    if es == [] then multiset{} else Offered(es[0]) + AllOffered(es[1..])
  }

  lemma StepSound(r: Ref, e: Event, given: multiset<Buf>)
    requires Steady(r) && Sound(r, given) && Enabled(r, e)
    ensures Steady(Step(r, e)) && Sound(Step(r, e), given + Offered(e))
  {
    hide Receive, Recover, InArrivalOrder, PassedBufs, PnTrace, OnlyReplaysRefused;
    match e
    case Rx(n, f) =>
      ReceiveSteady(r, n, f);
      ReceiveSound(r, n, f, given);
    case Expire(goal) =>
      RecoverSteady(r, goal);
      RecoverSound(r, goal, given);
    case ResetPn =>
  }

  lemma {:induction false} RunSound(r: Ref, es: seq<Event>, given: multiset<Buf>)
    requires Steady(r) && Sound(r, given) && Runnable(r, es)
    ensures Steady(Run(r, es)) && Sound(Run(r, es), given + AllOffered(es))
    decreases |es|
  {
    if es != [] {
      StepSound(r, es[0], given);
      RunSound(Step(r, es[0]), es[1..], given + Offered(es[0]));
    }
  }

  lemma OpenedSound(start: nat, size: nat)
    requires 1 <= size <= HALF_SPACE
    ensures Steady(Opened(start, size)) && Sound(Opened(start, size), multiset{})
  {
    var r := Opened(start, size);
    WaitingUpTo(r.held, start, start, start + size);
  }

  // ----- the theorems, for every run of a session from its opening on

  /** MPDUs are released with strictly increasing sequence numbers (so none twice), and what the
      stack receives is the passed MPDUs one after the other, each made of the accepted frames of its
      number in arrival order. */
  lemma ReleaseOrder(start: nat, size: nat, es: seq<Event>)
    requires 1 <= size <= HALF_SPACE && Runnable(Opened(start, size), es)
    ensures var r := Run(Opened(start, size), es);
            && (forall i, j :: 0 <= i < j < |r.log| ==> r.log[i].n < r.log[j].n)
            && r.delivered == PassedBufs(r.log)
            && (forall i :: 0 <= i < |r.log| ==> r.log[i].mpdu.bufs == Arrived(r.taken, r.log[i].n))
            && (forall i :: 0 <= i < |r.log| ==> Assembles(r.log[i].mpdu, FramesOf(r.taken, r.log[i].n)))
  {
    OpenedSound(start, size);
    RunSound(Opened(start, size), es, multiset{});
    var r := Run(Opened(start, size), es);
    LogAssembles(r.held, r.log, r.taken, r.start);
  }

  lemma LogAssembles(held: map<nat, Mpdu>, log: seq<Release>, taken: seq<Taken>, start: nat)
    requires InArrivalOrder(held, log, taken) && Increasing(log, start) && forall n :: n in held ==> n >= start
    ensures forall i :: 0 <= i < |log| ==> Assembles(log[i].mpdu, FramesOf(taken, log[i].n))
  {
    forall i | 0 <= i < |log|
      ensures Assembles(log[i].mpdu, FramesOf(taken, log[i].n))
    {
      LoggedAt(log, i, start);
      assert log[i].n !in held;
      assert MadeOf(Gathered(held, log, log[i].n), FramesOf(taken, log[i].n));
    }
  }

  lemma {:induction false} LoggedAt(log: seq<Release>, i: nat, start: nat)
    requires Increasing(log, start) && i < |log|
    ensures Logged(log, log[i].n) == Some(log[i].mpdu)
  {
    if i < |log| - 1 { LoggedAt(log[..|log| - 1], i, start); }
  }

  /** Every buffer ever given to the session is delivered, freed or waiting, each exactly once. */
  lemma Conservation(start: nat, size: nat, es: seq<Event>)
    requires 1 <= size <= HALF_SPACE && Runnable(Opened(start, size), es)
    ensures var r := Run(Opened(start, size), es);
            multiset(r.delivered) + multiset(r.freed) + Waiting(r) == AllOffered(es)
  {
    OpenedSound(start, size);
    RunSound(Opened(start, size), es, multiset{});
  }

  // ----- packet numbers of the frames received

  /** The 48-bit packet number of a frame. */
  function FramePn(f: Frame): nat {
    f.pnH * 0x1_0000_0000 + f.pnL
  }

  /** Frames whose first one came under TKIP or CCMP and that carry a buffer. */
  predicate Numbered(fs: seq<Frame>) {
    fs != [] && BufsOf(fs) != [] && (fs[0].cipher == 1 || fs[0].cipher == 2)
  }

  /** The packet numbers, as received, of what passed the replay check, from the initial zero on. */
  function AirTrace(log: seq<Release>, taken: seq<Taken>): seq<nat> {
    if log == [] then [0]
    else
      var e := log[|log| - 1];
      var fs := FramesOf(taken, e.n);
      AirTrace(log[..|log| - 1], taken) + (if e.passed && Numbered(fs) then [FramePn(fs[0])] else [])
  }

  lemma {:induction false} TraceIsAir(log: seq<Release>, taken: seq<Taken>)
    requires forall i :: 0 <= i < |log| ==> Assembles(log[i].mpdu, FramesOf(taken, log[i].n))
    ensures AirTrace(log, taken) == PnTrace(log)
  {
    if log != [] {
      var e := log[|log| - 1];
      NumberedAlike(e.mpdu, FramesOf(taken, e.n));
      TraceIsAir(log[..|log| - 1], taken);
      hide Assembles, Numbered, Pn, FramePn;
    }
  }

  /** Packet numbers that pass under TKIP and CCMP strictly increase in order of release, apart from at
      most one exception for each reset request; and nothing but a replay is ever refused. Both speak
      of the packet numbers of the frames received. */
  lemma PnMonotone(start: nat, size: nat, es: seq<Event>)
    requires 1 <= size <= HALF_SPACE && Runnable(Opened(start, size), es)
    ensures var r := Run(Opened(start, size), es);
            Descents(PnTrace(r.log)) <= r.resets == ResetsIn(es) && OnlyReplaysRefused(r.log)
    ensures var r := Run(Opened(start, size), es);
            Descents(AirTrace(r.log, r.taken)) <= ResetsIn(es) && OnlyAirReplaysRefused(r.log, r.taken)
  {
    OpenedSound(start, size);
    RunSound(Opened(start, size), es, multiset{});
    CountResets(Opened(start, size), es);
    var r := Run(Opened(start, size), es);
    hide Run, Runnable, InArrivalOrder, Descents, OnlyReplaysRefused, OnlyAirReplaysRefused, Assembles, Accounted;
    LogAssembles(r.held, r.log, r.taken, r.start);
    TraceIsAir(r.log, r.taken);
    RefusalsOnAir(r.log, r.taken);
  }

  /** A release was refused only if its first frame came under TKIP or CCMP with a packet number not
      above the last one that had passed. */
  ghost predicate OnlyAirReplaysRefused(log: seq<Release>, taken: seq<Taken>) {
    forall i :: 0 <= i < |log| && !log[i].passed ==>
      IsAirReplay(FramesOf(taken, log[i].n), AirTrace(log[..i], taken))
  }

  predicate IsAirReplay(fs: seq<Frame>, trace: seq<nat>) {
    Numbered(fs) && trace != [] && FramePn(fs[0]) <= trace[|trace| - 1]
  }

  lemma RefusalsOnAir(log: seq<Release>, taken: seq<Taken>)
    requires forall i :: 0 <= i < |log| ==> Assembles(log[i].mpdu, FramesOf(taken, log[i].n))
    requires OnlyReplaysRefused(log)
    ensures OnlyAirReplaysRefused(log, taken)
  {
    hide Assembles, PnTrace, AirTrace, IsReplay, IsAirReplay;
    forall i | 0 <= i < |log| && !log[i].passed
      ensures IsAirReplay(FramesOf(taken, log[i].n), AirTrace(log[..i], taken))
    {
      TraceIsAir(log[..i], taken);
      assert IsReplay(log[i].mpdu, PnTrace(log[..i]));
      ReplayIsAir(log[i].mpdu, FramesOf(taken, log[i].n), PnTrace(log[..i]));
    }
  }

  lemma ReplayIsAir(m: Mpdu, fs: seq<Frame>, trace: seq<nat>)
    requires Assembles(m, fs) && IsReplay(m, trace)
    ensures IsAirReplay(fs, trace)
  {
    NumberedAlike(m, fs);
  }

  lemma NumberedAlike(m: Mpdu, fs: seq<Frame>)
    requires Assembles(m, fs)
    ensures fs != [] && FramePn(fs[0]) == Pn(m.pnL, m.pnH)
    ensures Numbered(fs) <==> m.bufs != [] && Protected(m.cipher)
  {
  }

  /** Nothing is accepted that was not received. */
  ghost predicate Received(taken: seq<Taken>, es: seq<Event>) {
    forall t :: t in taken ==> Rx(t.n, t.frame) in es
  }

  lemma {:induction false} AcceptedWereReceived(r: Ref, es: seq<Event>, past: seq<Event>)
    requires Steady(r) && Runnable(r, es) && Received(r.taken, past)
    ensures Received(Run(r, es).taken, past + es)
    decreases |es|
  {
    if es != [] {
      StepTakes(r, es[0]);
      hide Step, Enabled, Steady;
      AcceptedWereReceived(Step(r, es[0]), es[1..], past + [es[0]]);
      assert past + [es[0]] + es[1..] == past + es;
    } else {
      assert past + es == past;
    }
  }

  lemma StepTakes(r: Ref, e: Event)
    requires Steady(r) && Enabled(r, e)
    ensures Steady(Step(r, e))
    ensures Step(r, e).taken == r.taken || (e.Rx? && Step(r, e).taken == r.taken + [Taken(e.n, e.frame)])
  {
    match e
    case Rx(n, f) =>
      ReceiveSteady(r, n, f);
      ReceiveTakes(r, n, f);
    case Expire(goal) =>
      RecoverSteady(r, goal);
      FlushDrains(r, goal);
    case ResetPn =>
  }

  function ResetsIn(es: seq<Event>): nat {
    if es == [] then 0 else (if es[0].ResetPn? then 1 else 0) + ResetsIn(es[1..])
  }

  lemma {:induction false} CountResets(r: Ref, es: seq<Event>)
    requires Steady(r) && Runnable(r, es)
    ensures Run(r, es).resets == r.resets + ResetsIn(es)
    decreases |es|
  {
    if es != [] {
      StepResets(r, es[0]);
      CountResets(Step(r, es[0]), es[1..]);
    }
  }

  lemma StepResets(r: Ref, e: Event)
    requires Steady(r) && Enabled(r, e)
    ensures Steady(Step(r, e))
    ensures Step(r, e).resets == r.resets + (if e.ResetPn? then 1 else 0)
  {
    match e
    case Rx(n, f) =>
      ReceiveSteady(r, n, f);
      if n >= r.start {
        RoomDrains(r, n);
        var room := MakeRoom(r, n);
        DrainedLegal(r, room);
        if Takes(room, n, f) {
          StoreLegal(room, n, f);
          InOrderDrains(Store(room, n, f));
        }
      }
    case Expire(goal) =>
      RecoverSteady(r, goal);
      FlushDrains(r, goal);
    case ResetPn =>
  }
}
