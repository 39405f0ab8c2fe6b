/** The credit semaphore in front of the Bluetooth TX pool (tty.c): any number of writers and the
    TX-complete callback, interleaved step by step. */
module TxCredits {
  import opened Threads

  const BT_TX_POOL_SIZE := 64

  type Node = nat

  /** Where a writer is: outside, between down(&sem_id) and the allocation, or between the allocation
      and the push. */
  datatype Pc = Outside | Holding | Owning(node: Node)

  /** `ups` counts callbacks that have freed their list and not yet called up(); `lost` counts the
      permits that no step will ever give back. */
  datatype State = State(permits: nat, pc: map<Tid, Pc>, free: set<Node>, bus: set<Node>, ups: nat, lost: nat)

  datatype Action =
    | Down(t: Tid)                 // down(&sem_id) succeeds
    | Alloc(t: Tid, node: Node)    // sprdwcn_bus_list_alloc hands out one node
    | AllocFail(t: Tid)            // it finds the pool empty; up(&sem_id)
    | Push(t: Tid)                 // sprdwcn_bus_push_list accepts the node
    | PushFail(t: Tid)             // it refuses; the node is freed and no permit is given back
    | CbFree(nodes: set<Node>)     // the callback frees a list of any length
    | CbUp                         // and gives back one permit

  predicate Enabled(s: State, a: Action) {
    match a
    case Down(t) => t in s.pc && s.pc[t] == Outside && s.permits > 0
    case Alloc(t, node) => t in s.pc && s.pc[t] == Holding && node in s.free
    case AllocFail(t) => t in s.pc && s.pc[t] == Holding && s.free == {}
    case Push(t) => t in s.pc && s.pc[t].Owning?
    case PushFail(t) => t in s.pc && s.pc[t].Owning?
    case CbFree(nodes) => nodes != {} && nodes <= s.bus
    case CbUp => s.ups > 0
  }

  function Step(s: State, a: Action): State
    requires Enabled(s, a)
  {
    match a
    case Down(t) => s.(permits := s.permits - 1, pc := s.pc[t := Holding])
    case Alloc(t, node) => s.(pc := s.pc[t := Owning(node)], free := s.free - {node})
    case AllocFail(t) => s.(permits := s.permits + 1, pc := s.pc[t := Outside])
    case Push(t) => s.(pc := s.pc[t := Outside], bus := s.bus + {s.pc[t].node})
    case PushFail(t) => s.(pc := s.pc[t := Outside], free := s.free + {s.pc[t].node}, lost := s.lost + 1)
    case CbFree(nodes) =>
      CardinalityPositive(nodes);
      s.(bus := s.bus - nodes, free := s.free + nodes, ups := s.ups + 1, lost := s.lost + |nodes| - 1)
    case CbUp => s.(ups := s.ups - 1, permits := s.permits + 1)
  }

  lemma CardinalityPositive(nodes: set<Node>)
    requires nodes != {}
    ensures |nodes| >= 1
  {
  }

  predicate IsHolding(pc: Pc) {
    pc == Holding
  }

  predicate IsOwning(pc: Pc) {
    pc.Owning?
  }

  function Holders(s: State): set<Tid> {
    Those(s.pc, IsHolding)
  }

  function Owners(s: State): set<Tid> {
    Those(s.pc, IsOwning)
  }

  /** Nodes outside the free list: in a writer's hands or on the bus. */
  function Outstanding(s: State): nat {
    |Owners(s)| + |s.bus|
  }

  ghost predicate Disjoint(s: State) {
    && s.free !! s.bus
    && (forall t :: t in s.pc && s.pc[t].Owning? ==> s.pc[t].node !in s.free && s.pc[t].node !in s.bus)
    && (forall t, u :: t in s.pc && u in s.pc && t != u && s.pc[t].Owning? && s.pc[u].Owning?
          ==> s.pc[t].node != s.pc[u].node)
  }

  /** Permits are conserved, the ones lost included; so are nodes, and no node is in two places. */
  ghost predicate Inv(s: State) {
    && s.permits + |Holders(s)| + Outstanding(s) + s.ups + s.lost == BT_TX_POOL_SIZE - 1
    && |s.free| + Outstanding(s) == BT_TX_POOL_SIZE
    && Disjoint(s)
  }

  /** mtty_probe: a full pool and one permit less than nodes. */
  ghost predicate Init(s: State) {
    && (forall t :: t in s.pc ==> s.pc[t] == Outside)
    && s.permits == BT_TX_POOL_SIZE - 1 && |s.free| == BT_TX_POOL_SIZE && s.bus == {}
    && s.ups == 0 && s.lost == 0
  }

  lemma InitInv(s: State)
    requires Init(s)
    ensures Inv(s)
  {
    assert Holders(s) == {} && Owners(s) == {};
  }

  lemma StepDisjoint(s: State, a: Action)
    requires Disjoint(s) && Enabled(s, a)
    ensures Disjoint(Step(s, a))
  {
  }

  /** The node that changes hands was not already where it goes. */
  lemma NotThereYet(s: State, a: Action)
    requires Disjoint(s) && Enabled(s, a)
    ensures (a.Push? || a.PushFail?) ==> s.pc[a.t].node !in s.free && s.pc[a.t].node !in s.bus
    ensures a.CbFree? ==> a.nodes !! s.free
  {
  }

  lemma StepInv(s: State, a: Action)
    requires Inv(s) && Enabled(s, a)
    ensures Inv(Step(s, a))
  {
    hide Inv;
    if a.CbFree? || a.CbUp? { CallbackInv(s, a); } else { WriterInv(s, a); }
  }

  /** A writer's step moves one writer, and at most one node. */
  lemma WriterInv(s: State, a: Action)
    requires Inv(s) && Enabled(s, a) && !a.CbFree? && !a.CbUp?
    ensures Inv(Step(s, a))
  {
    StepDisjoint(s, a);
    NotThereYet(s, a);
    OneMoves(s.pc, a.t, Step(s, a).pc[a.t], IsHolding);
    OneMoves(s.pc, a.t, Step(s, a).pc[a.t], IsOwning);
    hide Disjoint, Those;
  }

  lemma CallbackInv(s: State, a: Action)
    requires Inv(s) && Enabled(s, a) && (a.CbFree? || a.CbUp?)
    ensures Inv(Step(s, a))
  {
    StepDisjoint(s, a);
    NotThereYet(s, a);
    hide Disjoint, Those;
    if a.CbFree? {
      CardinalityPositive(a.nodes);
      assert s.bus == (s.bus - a.nodes) + a.nodes;
    }
  }

  predicate Runnable(s: State, run: seq<Action>)
    decreases |run|
  {
    run == [] || (Enabled(s, run[0]) && Runnable(Step(s, run[0]), run[1..]))
  }

  function Run(s: State, run: seq<Action>): State
    requires Runnable(s, run)
    decreases |run|
  {
    if run == [] then s else Run(Step(s, run[0]), run[1..])
  }

  lemma {:induction false} RunInv(s: State, run: seq<Action>)
    requires Inv(s) && Runnable(s, run)
    ensures Inv(Run(s, run))
    ensures Run(s, run).lost >= s.lost
    decreases |run|
  {
    if run != [] {
      StepInv(s, run[0]);
      if run[0].CbFree? { CardinalityPositive(run[0].nodes); }
      RunInv(Step(s, run[0]), run[1..]);
    }
  }

  /** In every interleaving the permits, the writers about to allocate and the nodes in use together
      stay below the pool size, so a writer that holds a permit never finds the pool empty. */
  lemma PoolNeverRunsDry(s: State, run: seq<Action>)
    requires Init(s) && Runnable(s, run)
    ensures var z := Run(s, run);
            && z.permits + |Holders(z)| + Outstanding(z) <= 63
            && (forall t :: t in z.pc && z.pc[t] == Holding ==> |z.free| >= 2 && !Enabled(z, AllocFail(t)))
  {
    InitInv(s);
    RunInv(s, run);
    var z := Run(s, run);
    forall t | t in z.pc && z.pc[t] == Holding
      ensures |z.free| >= 2 && !Enabled(z, AllocFail(t))
    {
      assert t in Holders(z);
      assert Holders(z) != {};
    }
  }

  /** A writer that finds the pool empty gives its permit back and is where it was. */
  lemma AllocFailUndoesDown(s: State, t: Tid)
    requires Enabled(s, Down(t)) && s.free == {}
    ensures Enabled(Step(s, Down(t)), AllocFail(t)) && Step(Step(s, Down(t)), AllocFail(t)) == s
  {
    assert s.pc[t := Holding][t := Outside] == s.pc;
  }

  /** A node's way through the writer, the bus and the callback leaves nothing behind. */
  lemma WayThrough(s: State, t: Tid, node: Node)
    requires Enabled(s, Down(t)) && node in s.free && node !in s.bus
    ensures var run := [Down(t), Alloc(t, node), Push(t), CbFree({node}), CbUp];
            Runnable(s, run) && Run(s, run) == s
  {
    var run := [Down(t), Alloc(t, node), Push(t), CbFree({node}), CbUp];
    var s1 := Step(s, Down(t));
    var s2 := Step(s1, Alloc(t, node));
    var s3 := Step(s2, Push(t));
    var s4 := Step(s3, CbFree({node}));
    var s5 := Step(s4, CbUp);
    assert s5.pc == s.pc && s5.free == s.free && s5.bus == s.bus && s5 == s;
    assert run[1..] == [Alloc(t, node), Push(t), CbFree({node}), CbUp];
    assert run[1..][1..] == [Push(t), CbFree({node}), CbUp];
    assert run[1..][1..][1..] == [CbFree({node}), CbUp] && [CbFree({node}), CbUp][1..] == [CbUp];
    assert [CbUp][1..] == [];
    assert Runnable(s5, []) && Runnable(s4, [CbUp]) && Runnable(s3, [CbFree({node}), CbUp]);
    assert Runnable(s2, run[1..][1..]) && Runnable(s1, run[1..]) && Runnable(s, run);
    assert Run(s, run) == Run(s1, run[1..]) == Run(s2, run[1..][1..]) == Run(s3, [CbFree({node}), CbUp]);
    assert Run(s3, [CbFree({node}), CbUp]) == Run(s4, [CbUp]) == Run(s5, []) == s5;
  }

  // ----- what a run costs

  /** The permits that a step takes away for good: one for a refused push, and all but one of those
      of a list that the callback frees. */
  function Cost(a: Action): nat {
    match a
    case PushFail(_) => 1
    case CbFree(nodes) => if nodes == {} then 0 else (CardinalityPositive(nodes); |nodes| - 1)
    case _ => 0
  }

  function Surplus(run: seq<Action>): nat {
    if run == [] then 0 else Cost(run[0]) + Surplus(run[1..])
  }

  lemma {:induction false} LostIsSurplus(s: State, run: seq<Action>)
    requires Runnable(s, run)
    ensures Run(s, run).lost == s.lost + Surplus(run)
    ensures Run(s, run).pc.Keys == s.pc.Keys
    decreases |run|
  {
    if run != [] { LostIsSurplus(Step(s, run[0]), run[1..]); }
  }

  /** The books of every interleaving: the permits still in the game are 63 less the surplus. So the
      expectation that permits and nodes balance holds if and only if no push was refused and every
      freed list had one node, and there is never a surplus above 63. */
  lemma CreditsBalance(s: State, run: seq<Action>)
    requires Init(s) && Runnable(s, run)
    ensures var z := Run(s, run);
            && z.permits + |Holders(z)| + Outstanding(z) + z.ups == 63 - Surplus(run)
            && (Surplus(run) == 0 <==> forall i :: 0 <= i < |run| ==> Cost(run[i]) == 0)
  {
    InitInv(s);
    RunInv(s, run);
    LostIsSurplus(s, run);
    NoSurplus(run);
  }

  lemma {:induction false} NoSurplus(run: seq<Action>)
    ensures Surplus(run) == 0 <==> forall i :: 0 <= i < |run| ==> Cost(run[i]) == 0
  {
    if run != [] {
      NoSurplus(run[1..]);
      assert forall i :: 1 <= i < |run| ==> run[i] == run[1..][i - 1];
    }
  }

  // ----- when the semaphore is dead

  /** Whatever happens next, no writer passes the semaphore again. */
  ghost predicate Dead(s: State) {
    forall more, t :: Runnable(s, more) ==> !Enabled(Run(s, more), Down(t))
  }

  lemma RunStep(s: State, a: Action, rest: seq<Action>)
    ensures Runnable(s, [a] + rest) <==> Enabled(s, a) && Runnable(Step(s, a), rest)
    ensures Runnable(s, [a] + rest) ==> Run(s, [a] + rest) == Run(Step(s, a), rest)
  {
    assert ([a] + rest)[1..] == rest;
  }

  lemma StillAlive(s: State, a: Action)
    requires Enabled(s, a) && !Dead(Step(s, a))
    ensures !Dead(s)
  {
    var more, t :| Runnable(Step(s, a), more) && Enabled(Run(Step(s, a), more), Down(t));
    RunStep(s, a, more);
  }

  lemma PermitLeft(s: State, t: Tid)
    requires Enabled(s, Down(t))
    ensures !Dead(s)
  {
    assert Runnable(s, []) && Run(s, []) == s;
  }

  /** The rest of a writer's way: its node onto the bus, back through the callback, and its permit. */
  lemma CallbackReturns(s: State, t: Tid, node: Node)
    requires t in s.pc && s.pc[t] == Outside && node in s.bus
    ensures !Dead(s)
  {
    hide Dead;
    var s1 := Step(s, CbFree({node}));
    PermitLeft(Step(s1, CbUp), t);
    StillAlive(s1, CbUp);
    StillAlive(s, CbFree({node}));
  }

  lemma OwnerReturns(s: State, t: Tid)
    requires t in s.pc && s.pc[t].Owning?
    ensures !Dead(s)
  {
    hide Dead;
    CallbackReturns(Step(s, Push(t)), t, s.pc[t].node);
    StillAlive(s, Push(t));
  }

  /** As long as fewer than 63 permits are lost some continuation lets a writer pass. */
  lemma SomebodyPasses(s: State)
    requires Inv(s) && s.pc.Keys != {} && s.lost < BT_TX_POOL_SIZE - 1
    ensures !Dead(s)
  {
    hide Dead;
    if t :| t in s.pc && s.pc[t] == Holding {
      assert t in Holders(s) && Holders(s) != {};
      var node :| node in s.free;
      OwnerReturns(Step(s, Alloc(t, node)), t);
      StillAlive(s, Alloc(t, node));
    } else if t :| t in s.pc && s.pc[t].Owning? {
      OwnerReturns(s, t);
    } else {
      var t :| t in s.pc;
      assert Holders(s) == {} && Owners(s) == {};
      if s.permits > 0 {
        PermitLeft(s, t);
      } else if node :| node in s.bus {
        CallbackReturns(s, t, node);
      } else {
        assert s.bus == {};
        PermitLeft(Step(s, CbUp), t);
        StillAlive(s, CbUp);
      }
    }
  }

  /** In every interleaving the semaphore is dead for good if and only if the surplus has reached 63. */
  lemma DeadExactly(s: State, run: seq<Action>)
    requires Init(s) && s.pc.Keys != {} && Runnable(s, run)
    ensures Surplus(run) <= 63
    ensures Dead(Run(s, run)) <==> Surplus(run) == 63
  {
    InitInv(s);
    RunInv(s, run);
    LostIsSurplus(s, run);
    var z := Run(s, run);
    if z.lost < BT_TX_POOL_SIZE - 1 {
      SomebodyPasses(z);
    } else {
      forall more, t | Runnable(z, more)
        ensures !Enabled(Run(z, more), Down(t))
      {
        RunInv(z, more);
      }
    }
  }

  // ----- a run that kills it

  /** A driver just probed, with any writers. */
  function Booted(ts: set<Tid>): State {
    State(BT_TX_POOL_SIZE - 1, map t | t in ts :: Outside, FirstNodes(BT_TX_POOL_SIZE), {}, 0, 0)
  }

  function FirstNodes(k: nat): (nodes: set<Node>)
    ensures |nodes| == k && forall n: Node :: n in nodes <==> n < k
  {
    if k == 0 then {} else FirstNodes(k - 1) + {k - 1}
  }

  lemma BootedInit(ts: set<Tid>)
    ensures Init(Booted(ts))
  {
  }

  /** One writer whose every push is refused. */
  function Refusals(t: Tid, node: Node, k: nat): seq<Action> {
    if k == 0 then [] else [Down(t)] + ([Alloc(t, node)] + ([PushFail(t)] + Refusals(t, node, k - 1)))
  }

  lemma OneRefusal(s: State, t: Tid, node: Node, rest: seq<Action>)
    requires t in s.pc && s.pc[t] == Outside && node in s.free && s.permits > 0
    ensures var run := [Down(t)] + ([Alloc(t, node)] + ([PushFail(t)] + rest));
            var z := s.(permits := s.permits - 1, lost := s.lost + 1);
            (Runnable(s, run) <==> Runnable(z, rest)) && (Runnable(z, rest) ==> Run(s, run) == Run(z, rest))
  {
    var run := [Down(t)] + ([Alloc(t, node)] + ([PushFail(t)] + rest));
    var z := s.(permits := s.permits - 1, lost := s.lost + 1);
    var s1 := Step(s, Down(t));
    var s2 := Step(s1, Alloc(t, node));
    var s3 := Step(s2, PushFail(t));
    assert s3.pc == z.pc && s3.free == z.free;
    assert Enabled(s, Down(t)) && Enabled(s1, Alloc(t, node)) && Enabled(s2, PushFail(t)) && s3 == z;
    hide Runnable, Run, Enabled, Step;
    RunStep(s, Down(t), [Alloc(t, node)] + ([PushFail(t)] + rest));
    RunStep(s1, Alloc(t, node), [PushFail(t)] + rest);
    RunStep(s2, PushFail(t), rest);
  }

  lemma {:induction false} RefusalsRun(s: State, t: Tid, node: Node, k: nat)
    requires t in s.pc && s.pc[t] == Outside && node in s.free && s.permits >= k
    ensures Runnable(s, Refusals(t, node, k))
    ensures Run(s, Refusals(t, node, k)) == s.(permits := s.permits - k, lost := s.lost + k)
    decreases k
  {
    if k > 0 {
      OneRefusal(s, t, node, Refusals(t, node, k - 1));
      RefusalsRun(s.(permits := s.permits - 1, lost := s.lost + 1), t, node, k - 1);
    }
  }

  /** One writer and 63 refused pushes are enough: with nothing in use at all, nobody passes the
      semaphore again; one refusal less leaves it alive. */
  lemma RefusalsDrainThePermits(ts: set<Tid>, t: Tid, node: Node, k: nat)
    requires t in ts && node < 64 && k <= 63
    ensures Runnable(Booted(ts), Refusals(t, node, k))
    ensures var z := Run(Booted(ts), Refusals(t, node, k));
            && z == Booted(ts).(permits := 63 - k, lost := k)
            && (Dead(z) <==> k == 63)
  {
    hide Dead, Refusals, Run, Runnable, Surplus, FirstNodes;
    BootedInit(ts);
    RefusalsRun(Booted(ts), t, node, k);
    LostIsSurplus(Booted(ts), Refusals(t, node, k));
    DeadExactly(Booted(ts), Refusals(t, node, k));
  }
}
