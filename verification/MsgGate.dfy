/** The rundown gate of a message list (msg.c): an atomic reference count that admits users, counts
    the buffers they hold, and closes for good once an exit offset has been added. Every atomic
    operation and every locked section is one step; any number of threads interleave. */
module MsgGate {
  import opened Threads

  const EXIT_VAL := 0x8000

  type Buf = nat

  /** What a thread still has to do: Admitted and Refused come out of atomic_inc_return, Missed found
      the free list empty, Releasing has put its buffer back and not yet dropped its reference. */
  datatype Pc = Idle | Admitted | Refused | Missed | Owning(buf: Buf) | Releasing

  datatype State = State(ref: int, exited: bool, free: seq<Buf>, busy: set<Buf>, pc: map<Tid, Pc>)

  datatype Action =
    | Enter(t: Tid)              // sprdwl_alloc_msg_buf: atomic_inc_return and its test
    | Take(t: Tid)               // the locked section of sprdwl_alloc_msg_buf
    | Leave(t: Tid)              // atomic_dec
    | Queue(t: Tid)              // sprdwl_queue_msg_buf
    | Dequeue(t: Tid, buf: Buf)  // list_del from the busy list
    | Put(t: Tid)                // sprdwl_free_msg_buf: list_add_tail
    | Exit                       // sprdwl_msg_deinit: atomic_add of the exit value

  predicate Enabled(s: State, a: Action) {
    match a
    case Enter(t) => t in s.pc && s.pc[t] == Idle
    case Take(t) => t in s.pc && s.pc[t] == Admitted
    case Leave(t) => t in s.pc && (s.pc[t] == Refused || s.pc[t] == Missed || s.pc[t] == Releasing)
    case Queue(t) => t in s.pc && s.pc[t].Owning?
    case Dequeue(t, buf) => t in s.pc && s.pc[t] == Idle && buf in s.busy
    case Put(t) => t in s.pc && s.pc[t].Owning?
    case Exit => !s.exited
  }

  function Step(s: State, a: Action): State
    requires Enabled(s, a)
  {
    match a
    case Enter(t) =>
      s.(ref := s.ref + 1, pc := s.pc[t := if s.ref + 1 >= EXIT_VAL then Refused else Admitted])
    case Take(t) =>
      if s.free == [] then s.(pc := s.pc[t := Missed])
      else s.(pc := s.pc[t := Owning(s.free[0])], free := s.free[1..])
    case Leave(t) => s.(ref := s.ref - 1, pc := s.pc[t := Idle])
    case Queue(t) => s.(pc := s.pc[t := Idle], busy := s.busy + {s.pc[t].buf})
    case Dequeue(t, buf) => s.(pc := s.pc[t := Owning(buf)], busy := s.busy - {buf})
    case Put(t) => s.(pc := s.pc[t := Releasing], free := s.free + [s.pc[t].buf])
    case Exit => s.(ref := s.ref + EXIT_VAL, exited := true)
  }

  predicate IsBusy(pc: Pc) {
    pc != Idle
  }

  predicate IsOwning(pc: Pc) {
    pc.Owning?
  }

  /** Threads that hold a reference: an attempt in progress or a buffer in their hands. */
  function Users(s: State): set<Tid> {
    Those(s.pc, IsBusy)
  }

  function Owners(s: State): set<Tid> {
    Those(s.pc, IsOwning)
  }

  /** No buffer is in two places. */
  ghost predicate Disjoint(s: State) {
    && (forall i, j :: 0 <= i < j < |s.free| ==> s.free[i] != s.free[j])
    && (forall b :: b in s.busy ==> b !in s.free)
    && (forall t :: t in s.pc && s.pc[t].Owning? ==> s.pc[t].buf !in s.free && s.pc[t].buf !in s.busy)
    && (forall t, u :: t in s.pc && u in s.pc && t != u && s.pc[t].Owning? && s.pc[u].Owning?
          ==> s.pc[t].buf != s.pc[u].buf)
  }

  ghost predicate Inv(s: State, maxnum: nat) {
    && s.ref == |Users(s)| + |s.busy| + (if s.exited then EXIT_VAL else 0)
    && |s.free| + |Owners(s)| + |s.busy| == maxnum
    && Disjoint(s)
  }

  /** sprdwl_msg_init succeeded with maxnum buffers. */
  ghost predicate Init(s: State, maxnum: nat) {
    && s.ref == 0 && !s.exited && s.busy == {} && |s.free| == maxnum
    && (forall i, j :: 0 <= i < j < |s.free| ==> s.free[i] != s.free[j])
    && (forall t :: t in s.pc ==> s.pc[t] == Idle)
  }

  lemma InitInv(s: State, maxnum: nat)
    requires Init(s, maxnum)
    ensures Inv(s, maxnum)
  {
    assert Users(s) == {} && Owners(s) == {};
  }

  lemma StepDisjoint(s: State, a: Action)
    requires Disjoint(s) && Enabled(s, a)
    ensures Disjoint(Step(s, a))
    ensures a.Queue? ==> s.pc[a.t].buf !in s.busy
  {
    if a.Take? && s.free != [] {
      assert forall i :: 0 <= i < |s.free[1..]| ==> s.free[1..][i] == s.free[i + 1];
    }
  }

  lemma StepInv(s: State, a: Action, maxnum: nat)
    requires Inv(s, maxnum) && Enabled(s, a)
    ensures Inv(Step(s, a), maxnum)
  {
    StepDisjoint(s, a);
    if !a.Exit? {
      OneMoves(s.pc, a.t, Step(s, a).pc[a.t], IsBusy);
      OneMoves(s.pc, a.t, Step(s, a).pc[a.t], IsOwning);
    }
    hide Disjoint, Those;
    if a.Enter? || a.Leave? || a.Exit? { CountMoves(s, a, maxnum); } else { BufferMoves(s, a, maxnum); }
  }

  /** Steps that change the count alone. */
  lemma CountMoves(s: State, a: Action, maxnum: nat)
    requires Inv(s, maxnum) && Enabled(s, a) && (a.Enter? || a.Leave? || a.Exit?) && Disjoint(Step(s, a))
    requires !a.Exit? ==> Counted(s, a)
    ensures Inv(Step(s, a), maxnum)
  {
    hide Disjoint, Those;
  }

  /** Steps that move one buffer, or find none. */
  lemma BufferMoves(s: State, a: Action, maxnum: nat)
    requires Inv(s, maxnum) && Enabled(s, a) && (a.Take? || a.Queue? || a.Dequeue? || a.Put?) && Disjoint(Step(s, a))
    requires Counted(s, a) && (a.Queue? ==> s.pc[a.t].buf !in s.busy)
    ensures Inv(Step(s, a), maxnum)
  {
    hide Disjoint, Those;
  }

  /** What one thread's step does to the numbers of users and owners. */
  ghost predicate Counted(s: State, a: Action)
    requires Enabled(s, a) && !a.Exit?
  {
    var was, now := s.pc[a.t], Step(s, a).pc[a.t];
    && |Users(Step(s, a))| == |Users(s)| - (if IsBusy(was) then 1 else 0) + (if IsBusy(now) then 1 else 0)
    && |Owners(Step(s, a))| == |Owners(s)| - (if IsOwning(was) then 1 else 0) + (if IsOwning(now) then 1 else 0)
  }

  predicate Runnable(s: State, run: seq<Action>)
    decreases |run|
  {
    run == [] || (Enabled(s, run[0]) && Runnable(Step(s, run[0]), run[1..]))
  }

  function Run(s: State, run: seq<Action>): State
    requires Runnable(s, run)
    decreases |run|
  {
    if run == [] then s else Run(Step(s, run[0]), run[1..])
  }

  lemma {:induction false} RunInv(s: State, run: seq<Action>, maxnum: nat)
    requires Inv(s, maxnum) && Runnable(s, run)
    ensures Inv(Run(s, run), maxnum) && Run(s, run).pc.Keys == s.pc.Keys
    decreases |run|
  {
    if run != [] {
      StepInv(s, run[0], maxnum);
      RunInv(Step(s, run[0]), run[1..], maxnum);
    }
  }

  /** In every interleaving the count is the users plus the queued buffers, plus the exit value
      once deinit has run. */
  lemma CountIsExact(s: State, run: seq<Action>, maxnum: nat)
    requires Init(s, maxnum) && Runnable(s, run)
    ensures var z := Run(s, run);
            && z.ref == |Users(z)| + |z.busy| + (if z.exited then EXIT_VAL else 0)
            && |z.free| + |Owners(z)| + |z.busy| == maxnum
            && Disjoint(z)
  {
    InitInv(s, maxnum);
    RunInv(s, run, maxnum);
  }

  /** The gate is shut: nobody is past it and nothing is queued. */
  ghost predicate Shut(s: State, maxnum: nat) {
    && Inv(s, maxnum) && s.exited && s.busy == {}
    && (forall t :: t in s.pc ==> s.pc[t] != Admitted && !s.pc[t].Owning?)
  }

  lemma ShutIsFull(s: State, maxnum: nat)
    requires Shut(s, maxnum)
    ensures |s.free| == maxnum
  {
    assert Owners(s) == {};
  }

  lemma StaysShut(s: State, a: Action, maxnum: nat)
    requires Shut(s, maxnum) && Enabled(s, a)
    ensures Shut(Step(s, a), maxnum) && Step(s, a).free == s.free
  {
    StepInv(s, a, maxnum);
  }

  lemma {:induction false} RunStaysShut(s: State, run: seq<Action>, maxnum: nat)
    requires Shut(s, maxnum) && Runnable(s, run)
    ensures Shut(Run(s, run), maxnum) && Run(s, run).free == s.free
    decreases |run|
  {
    if run != [] {
      StaysShut(s, run[0], maxnum);
      RunStaysShut(Step(s, run[0]), run[1..], maxnum);
    }
  }

  /** Once deinit, having added the exit value, reads a count that does not exceed it, every buffer
      is on the free list, and in no continuation does anyone obtain one again. */
  lemma RundownIsSafe(s: State, run: seq<Action>, more: seq<Action>, maxnum: nat)
    requires Init(s, maxnum) && Runnable(s, run) && Runnable(Run(s, run), more)
    requires Run(s, run).exited && Run(s, run).ref <= EXIT_VAL
    ensures var z := Run(s, run);
            && |z.free| == maxnum && z.busy == {} && Users(z) == {}
            && Run(z, more).free == z.free
            && (forall t :: t in Run(z, more).pc ==> !Run(z, more).pc[t].Owning?)
  {
    CountIsExact(s, run, maxnum);
    var z := Run(s, run);
    assert Users(z) == {};
    assert forall t :: t in z.pc ==> (z.pc[t] != Idle ==> t in Users(z));
    ShutIsFull(z, maxnum);
    RunStaysShut(z, more, maxnum);
  }

  // ----- who is admitted

  /** Over every run an attempt is admitted if and only if the exit value was not added, as long as
      users and queued buffers stay below 32767; from there on a gate that is still open refuses too. */
  lemma AdmittedExactly(s: State, run: seq<Action>, maxnum: nat, t: Tid)
    requires Init(s, maxnum) && Runnable(s, run) && Enabled(Run(s, run), Enter(t))
    ensures var z := Run(s, run); var z' := Step(z, Enter(t));
            && t in z'.pc
            && (z'.pc[t] == Admitted <==> !z.exited && |Users(z)| + |z.busy| < 32767)
            && (z'.pc[t] != Admitted ==> z'.pc[t] == Refused)
            && z'.free == z.free && z'.busy == z.busy
  {
    CountIsExact(s, run, maxnum);
  }

  /** An admitted thread obtains the first free buffer if there is one, and what is put back goes to the
      end of the list: buffers are handed out in the order in which they came back. */
  lemma TakesExactly(s: State, t: Tid)
    ensures t in s.pc && s.pc[t] == Admitted ==>
              var z := Step(s, Take(t));
              && (z.pc[t].Owning? <==> s.free != [])
              && (s.free != [] ==> s.free == [z.pc[t].buf] + z.free)
              && (s.free == [] ==> z.free == [] && z.pc[t] == Missed)
    ensures t in s.pc && s.pc[t].Owning? ==>
              && Step(s, Put(t)).free == s.free + [s.pc[t].buf] && Step(s, Put(t)).pc[t] == Releasing
              && Step(s, Queue(t)).busy == s.busy + {s.pc[t].buf} && Step(s, Queue(t)).pc[t] == Idle
    ensures forall buf :: t in s.pc && s.pc[t] == Idle && buf in s.busy ==>
              && Step(s, Dequeue(t, buf)).pc[t] == Owning(buf)
              && Step(s, Dequeue(t, buf)).busy == s.busy - {buf} && Step(s, Dequeue(t, buf)).free == s.free
    ensures t in s.pc && (s.pc[t] == Refused || s.pc[t] == Missed || s.pc[t] == Releasing) ==>
              Step(s, Leave(t)).pc[t] == Idle && Step(s, Leave(t)).ref == s.ref - 1
  {
  }

  /** Two threads of a list with two buffers are admitted and served in order. */
  lemma BothServed(s: State, t: Tid, u: Tid, maxnum: nat)
    requires Init(s, maxnum) && maxnum >= 2 && t in s.pc && u in s.pc && t != u
    ensures var run := [Enter(t), Take(t), Enter(u), Take(u)];
            && Runnable(s, run)
            && Run(s, run).pc == s.pc[t := Owning(s.free[0])][u := Owning(s.free[1])]
            && Run(s, run).free == s.free[2..]
  {
    var run := [Enter(t), Take(t), Enter(u), Take(u)];
    var s1 := Step(s, Enter(t));
    var s2 := Step(s1, Take(t));
    var s3 := Step(s2, Enter(u));
    var s4 := Step(s3, Take(u));
    assert run[1..] == [Take(t), Enter(u), Take(u)] && run[1..][1..] == [Enter(u), Take(u)];
    assert run[1..][1..][1..] == [Take(u)] && [Take(u)][1..] == [];
    assert s.free[1..][1..] == s.free[2..];
    assert Runnable(s4, []) && Runnable(s3, [Take(u)]) && Runnable(s2, [Enter(u), Take(u)]);
    assert Runnable(s1, run[1..]) && Runnable(s, run);
    assert Run(s, run) == Run(s1, run[1..]) == Run(s2, [Enter(u), Take(u)]) == Run(s3, [Take(u)]) == s4;
    assert s4.pc == s.pc[t := Owning(s.free[0])][u := Owning(s.free[1])];
  }

  // ----- when the list is freed

  /** A step of a thread that is inside already: it is no newcomer, and not deinit itself. */
  predicate Inside(a: Action) {
    !a.Enter? && !a.Exit?
  }

  /** Without any newcomer the list is used again: whoever frees it now frees it too early. */
  ghost predicate UsedAgain(s: State) {
    exists more :: Runnable(s, more) && more != [] && forall i :: 0 <= i < |more| ==> Inside(more[i])
  }

  lemma UsedNow(s: State, a: Action)
    requires Enabled(s, a) && Inside(a)
    ensures UsedAgain(s)
  {
    assert Runnable(Step(s, a), []);
    assert Runnable(s, [a]) && [a] != [];
  }

  /** The steps left to a thread inside: one for each place it can be. */
  lemma UserMoves(s: State, t: Tid)
    requires t in Users(s)
    ensures UsedAgain(s)
  {
    match s.pc[t]
    case Admitted => UsedNow(s, Take(t));
    case Owning(_) => UsedNow(s, Put(t));
    case _ => UsedNow(s, Leave(t));
  }

  lemma InsideIsUser(s: State, a: Action)
    requires Enabled(s, a) && Inside(a)
    ensures Users(s) != {} || s.busy != {}
  {
    if !a.Dequeue? { assert a.t in Users(s); }
  }

  /** The count that deinit reads is the exact guard. After the exit value was added, the list is used
      again by those inside or for what is queued if and only if the count exceeds that value; a deinit
      that returns after three seconds although it does lets its caller free the list too early. */
  lemma GuardIsExact(s: State, run: seq<Action>, maxnum: nat)
    requires Init(s, maxnum) && s.pc.Keys != {} && Runnable(s, run) && Run(s, run).exited
    ensures UsedAgain(Run(s, run)) <==> Run(s, run).ref > EXIT_VAL
  {
    CountIsExact(s, run, maxnum);
    RunInv(s, run, maxnum);
    var z := Run(s, run);
    if t :| t in Users(z) {
      UserMoves(z, t);
      assert z.ref > EXIT_VAL;
    } else if buf :| buf in z.busy {
      var t :| t in z.pc;
      assert t !in Users(z);
      UsedNow(z, Dequeue(t, buf));
      assert z.ref > EXIT_VAL;
    } else {
      assert Users(z) == {} && z.busy == {};
      forall a | Enabled(z, a)
        ensures Inside(a) ==> Users(z) != {} || z.busy != {}
      {
        if Inside(a) { InsideIsUser(z, a); }
      }
    }
  }

  /** Two runs in which deinit reads 0x8001 for three seconds: a thread that owns a buffer meanwhile,
      and one that only came to be refused. */
  lemma GiveUpTooEarly(s: State, t: Tid, maxnum: nat)
    requires Init(s, maxnum) && maxnum > 0 && t in s.pc
    ensures Runnable(s, [Enter(t), Take(t), Exit]) && Runnable(s, [Exit, Enter(t)])
    ensures var z := Run(s, [Enter(t), Take(t), Exit]);
            z.exited && z.ref == EXIT_VAL + 1 && t in z.pc && z.pc[t].Owning? && UsedAgain(z)
    ensures var z := Run(s, [Exit, Enter(t)]);
            z.exited && z.ref == EXIT_VAL + 1 && t in z.pc && z.pc[t] == Refused && UsedAgain(z)
  {
    var a := [Enter(t), Take(t), Exit];
    var a1 := Step(s, Enter(t));
    var a2 := Step(a1, Take(t));
    assert a[1..] == [Take(t), Exit] && [Take(t), Exit][1..] == [Exit] && [Exit][1..] == [];
    assert Runnable(Step(a2, Exit), []) && Runnable(a2, [Exit]) && Runnable(a1, [Take(t), Exit]);
    assert Run(s, a) == Run(a1, [Take(t), Exit]) == Run(a2, [Exit]) == Step(a2, Exit);
    UserMoves(Run(s, a), t);
    var b1 := Step(s, Exit);
    assert [Exit, Enter(t)][1..] == [Enter(t)] && [Enter(t)][1..] == [];
    assert Runnable(b1, [Enter(t)]) && Runnable(s, [Exit, Enter(t)]);
    assert Run(s, [Exit, Enter(t)]) == Run(b1, [Enter(t)]) == Step(b1, Enter(t));
    UserMoves(Run(s, [Exit, Enter(t)]), t);
  }

  // ----- who may still get hold of a buffer

  /** Whatever happens next, nobody holds a buffer of the list. */
  ghost predicate NeverOwned(s: State) {
    forall more, t :: Runnable(s, more) && t in Run(s, more).pc ==> !Run(s, more).pc[t].Owning?
  }

  lemma OwnedNow(s: State, t: Tid)
    requires t in s.pc && s.pc[t].Owning?
    ensures !NeverOwned(s)
  {
    assert Runnable(s, []) && Run(s, []) == s;
  }

  lemma OwnedLater(s: State, a: Action)
    requires Enabled(s, a) && !NeverOwned(Step(s, a))
    ensures !NeverOwned(s)
  {
    var more, t :| Runnable(Step(s, a), more) && t in Run(Step(s, a), more).pc
                   && Run(Step(s, a), more).pc[t].Owning?;
    assert ([a] + more)[1..] == more;
    assert Run(s, [a] + more) == Run(Step(s, a), more);
  }

  /** Any thread can get hold of a queued buffer. */
  lemma QueuedIsOwned(s: State, t: Tid, buf: Buf)
    requires t in s.pc && buf in s.busy
    ensures !NeverOwned(s)
    decreases match s.pc[t] case Idle => 0 case Admitted => 2 case _ => 1
  {
    hide NeverOwned;
    match s.pc[t]
    case Idle =>
      OwnedNow(Step(s, Dequeue(t, buf)), t);
      OwnedLater(s, Dequeue(t, buf));
    case Admitted =>
      if s.free != [] { OwnedNow(Step(s, Take(t)), t); } else { QueuedIsOwned(Step(s, Take(t)), t, buf); }
      OwnedLater(s, Take(t));
    case Owning(_) =>
      OwnedNow(s, t);
    case _ =>
      QueuedIsOwned(Step(s, Leave(t)), t, buf);
      OwnedLater(s, Leave(t));
  }

  /** At any moment after the exit value was added, nobody will hold a buffer again if and only if
      nobody is past the gate and nothing is queued; threads on their way out only use the count. */
  lemma NobodyOwnsExactly(s: State, run: seq<Action>, maxnum: nat)
    requires Init(s, maxnum) && maxnum > 0 && s.pc.Keys != {}
    requires Runnable(s, run) && Run(s, run).exited
    ensures var z := Run(s, run);
            NeverOwned(z) <==>
            z.busy == {} && (forall t :: t in z.pc ==> z.pc[t] != Admitted && !z.pc[t].Owning?)
  {
    InitInv(s, maxnum);
    RunInv(s, run, maxnum);
    var z := Run(s, run);
    if Shut(z, maxnum) {
      forall more, t | Runnable(z, more) && t in Run(z, more).pc
        ensures !Run(z, more).pc[t].Owning?
      {
        RunStaysShut(z, more, maxnum);
      }
    } else if t :| t in z.pc && z.pc[t].Owning? {
      OwnedNow(z, t);
    } else if buf :| buf in z.busy {
      var t :| t in z.pc;
      QueuedIsOwned(z, t, buf);
    } else {
      var t :| t in z.pc && z.pc[t] == Admitted;
      assert Owners(z) == {} && z.busy == {};
      OwnedNow(Step(z, Take(t)), t);
      OwnedLater(z, Take(t));
    }
  }
}
