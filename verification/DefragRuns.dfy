/** Reassembly while fragments of other stations and traffic classes arrive in between. */
module DefragRuns {
  import opened Common
  import opened SeqNo
  import opened Defrag

  /** The fragment belongs to the station and traffic class of the MSDU. */
  predicate Own(q: seq<Frag>, f: Frag)
    requires q != []
  {
    f.sta == q[0].sta && f.tid == q[0].tid
  }

  /** Where the MSDU is being reassembled. */
  function Place(nodes: seq<Node>, q: seq<Frag>): (i: nat)
    requires q != []
    ensures i <= |nodes|
  {
    Find(nodes, q[0].sta, q[0].tid)
  }

  /** The first k fragments of the MSDU are queued, and counted, at its place. */
  ghost predicate Collecting(nodes: seq<Node>, q: seq<Frag>, k: nat)
    requires q != [] && AllWellFormed(q)
  {
    && 0 < k <= |q| && At(nodes, q[0].sta, q[0].tid).Some?
    && var n := At(nodes, q[0].sta, q[0].tid).value;
       && n.seqNum == q[0].seqNum && n.last == k - 1 && n.queue == q[..k]
       && n.msduLen == Total(q[0]) + Sum(q[1..k])
  }

  /** A first fragment that opens the very node at which the MSDU is collected. */
  predicate Loses(nodes: seq<Node>, q: seq<Frag>, f: Frag)
    requires q != [] && nodes != []
  {
    f.num == 0 && Opens(nodes, f) && Slot(nodes, f) == Place(nodes, q)
  }

  // ----- the place of a key in the list

  lemma {:induction false} FindIs(nodes: seq<Node>, sta: nat, tid: nat, i: nat)
    requires i < |nodes| && nodes[i].sta == sta && nodes[i].tid == tid
    requires forall j :: 0 <= j < i ==> nodes[j].sta != sta || nodes[j].tid != tid
    ensures Find(nodes, sta, tid) == i
  {
    if i > 0 { FindIs(nodes[1..], sta, tid, i - 1); }
  }

  /** The node of a key, if there is one. */
  function At(nodes: seq<Node>, sta: nat, tid: nat): Option<Node> {
    var i := Find(nodes, sta, tid);
    if i < |nodes| then Some(nodes[i]) else None
  }

  lemma {:induction false} AtAppend(a: seq<Node>, b: seq<Node>, sta: nat, tid: nat)
    ensures At(a + b, sta, tid) == if At(a, sta, tid).Some? then At(a, sta, tid) else At(b, sta, tid)
    decreases |a|
  {
    if a == [] {
      assert a + b == b;
    } else {
      assert (a + b)[1..] == a[1..] + b;
      AtAppend(a[1..], b, sta, tid);
    }
  }

  /** A list around one of its nodes that is not the key's first. */
  lemma Around(nodes: seq<Node>, j: nat, sta: nat, tid: nat)
    requires j < |nodes| && j != Find(nodes, sta, tid)
    ensures At(nodes[..j] + nodes[j + 1..], sta, tid) == At(nodes, sta, tid)
  {
    var a, x, b := nodes[..j], nodes[j], nodes[j + 1..];
    assert nodes == a + ([x] + b);
    FindIsFirst(nodes, sta, tid);
    FindIsFirst(a, sta, tid);
    AtAppend(a, b, sta, tid);
    AtAppend(a, [x] + b, sta, tid);
    AtAppend([x], b, sta, tid);
    if x.sta == sta && x.tid == tid && j > Find(nodes, sta, tid) {
      assert a[Find(nodes, sta, tid)] == nodes[Find(nodes, sta, tid)];
      FindIs(a, sta, tid, Find(nodes, sta, tid));
    }
  }

  /** Another node moving to the front or the back does not hide a key. */
  lemma FrontKeeps(nodes: seq<Node>, j: nat, n: Node, sta: nat, tid: nat)
    requires j < |nodes| && j != Find(nodes, sta, tid) && (n.sta != sta || n.tid != tid)
    ensures At(ToFront(nodes, j, n), sta, tid) == At(nodes, sta, tid)
  {
    var a, b := nodes[..j], nodes[j + 1..];
    Around(nodes, j, sta, tid);
    assert ToFront(nodes, j, n) == [n] + (a + b);
    AtAppend([n], a + b, sta, tid);
  }

  lemma BackKeeps(nodes: seq<Node>, j: nat, n: Node, sta: nat, tid: nat)
    requires j < |nodes| && j != Find(nodes, sta, tid) && (n.sta != sta || n.tid != tid)
    ensures At(ToBack(nodes, j, n), sta, tid) == At(nodes, sta, tid)
  {
    var a, b := nodes[..j], nodes[j + 1..];
    Around(nodes, j, sta, tid);
    assert ToBack(nodes, j, n) == (a + b) + [n];
    AtAppend(a + b, [n], sta, tid);
  }

  lemma UpdateKeeps(nodes: seq<Node>, j: nat, n: Node, sta: nat, tid: nat)
    requires j < |nodes| && n.sta == nodes[j].sta && n.tid == nodes[j].tid
    ensures Find(nodes[j := n], sta, tid) == Find(nodes, sta, tid)
  {
    FindIsFirst(nodes, sta, tid);
    var i := Find(nodes, sta, tid);
    if i < |nodes| { FindIs(nodes[j := n], sta, tid, i); } else { FindNone(nodes[j := n], sta, tid); }
  }

  lemma {:induction false} FindNone(nodes: seq<Node>, sta: nat, tid: nat)
    requires forall j :: 0 <= j < |nodes| ==> nodes[j].sta != sta || nodes[j].tid != tid
    ensures Find(nodes, sta, tid) == |nodes|
  {
    if nodes != [] { FindNone(nodes[1..], sta, tid); }
  }

  // ----- one fragment

  /** A fragment that neither continues the MSDU nor loses it leaves its node as it is, and what it
      makes go up is somebody else's. */
  lemma OthersKeep(nodes: seq<Node>, q: seq<Frag>, f: Frag, memory: bool)
    requires q != [] && At(nodes, q[0].sta, q[0].tid).Some?
    requires nodes != [] && QueuesOk(nodes) && WellFormed(f)
    requires !Loses(nodes, q, f) && !(f.num > 0 && Own(q, f) && Continues(nodes, f))
    ensures At(Process(nodes, f, memory).nodes, q[0].sta, q[0].tid) == At(nodes, q[0].sta, q[0].tid)
    ensures Process(nodes, f, memory).out.Some? ==>
              var o := Process(nodes, f, memory).out.value; o.frags != [] && !Own(q, o.frags[|o.frags| - 1])
  {
    var sta, tid := q[0].sta, q[0].tid;
    FindIsFirst(nodes, f.sta, f.tid);
    FindIsFirst(nodes, sta, tid);
    if f.num == 0 {
      if Opens(nodes, f) { FrontKeeps(nodes, Slot(nodes, f), Opened(f), sta, tid); }
    } else if Continues(nodes, f) {
      var j := Find(nodes, f.sta, f.tid);
      QueueAt(nodes, j);
      var n := Extended(nodes[j], f);
      if f.more { UpdateKeeps(nodes, j, n, sta, tid); } else { BackKeeps(nodes, j, Drained(n), sta, tid); }
    }
  }

  lemma OthersPass(nodes: seq<Node>, q: seq<Frag>, k: nat, f: Frag, memory: bool)
    requires q != [] && AllWellFormed(q) && Collecting(nodes, q, k)
    requires nodes != [] && QueuesOk(nodes) && WellFormed(f)
    requires !Loses(nodes, q, f) && !(f.num > 0 && Own(q, f) && Continues(nodes, f))
    ensures Collecting(Process(nodes, f, memory).nodes, q, k)
    ensures Process(nodes, f, memory).out.Some? ==>
              var o := Process(nodes, f, memory).out.value; o.frags != [] && !Own(q, o.frags[|o.frags| - 1])
  {
    OthersKeep(nodes, q, f, memory);
  }

  /** What a first fragment does, by the fields of the nodes alone. With i the first node of its station
      and traffic class, drained or not, a number that is not after that node's is dropped; otherwise
      the fragment opens that node, or the last one if there is none, and moves it to the front. */
  lemma FirstFragment(nodes: seq<Node>, f: Frag, memory: bool, i: nat)
    requires nodes != [] && QueuesOk(nodes) && WellFormed(f) && f.num == 0 && i <= |nodes|
    requires forall j :: 0 <= j < i ==> nodes[j].sta != f.sta || nodes[j].tid != f.tid
    requires i < |nodes| ==> nodes[i].sta == f.sta && nodes[i].tid == f.tid
    ensures var r := Process(nodes, f, memory);
            if i < |nodes| && Leq(f.seqNum, nodes[i].seqNum) then r == Result(nodes, None)
            else
              var slot := if i < |nodes| then i else |nodes| - 1;
              && r.out == None
              && r.nodes == [Node(f.sta, f.tid, f.seqNum, 0, f.msduOffset + f.msduLen, [f])]
                            + (nodes[..slot] + nodes[slot + 1..])
  {
    if i < |nodes| { FindIs(nodes, f.sta, f.tid, i); } else { FindNone(nodes, f.sta, f.tid); }
    if Opens(nodes, f) {
      var slot, n := Slot(nodes, f), Opened(f);
      assert [n] + nodes[..slot] + nodes[slot + 1..] == [n] + (nodes[..slot] + nodes[slot + 1..]);
    }
  }

  /** What goes up grows by the bytes after a fragment's header: fourteen bytes with a SNAP header,
      twelve without. */
  lemma AssembledGrows(q: seq<Frag>, f: Frag)
    requires AllWellFormed(q) && q != [] && WellFormed(f)
    ensures AllWellFormed(q + [f])
    ensures Assembled([f]) == f.data[..f.msduOffset + f.msduLen]
    ensures var body := f.data[f.msduOffset + (if f.snap then 14 else 12)..f.msduOffset + f.msduLen];
            Assembled(q + [f]) == Assembled(q) + body
  {
    assert [f][1..] == [] && Bodies([f][1..]) == [];
    assert (q + [f])[1..] == q[1..] + [f];
    assert (q[1..] + [f])[..|q| - 1] == q[1..];
  }

  /** The next fragment is queued, and the last one completes the MSDU. */
  lemma NextJoins(nodes: seq<Node>, q: seq<Frag>, k: nat, memory: bool)
    requires Msdu(q) && k < |q| && Collecting(nodes, q, k) && nodes != [] && QueuesOk(nodes)
    ensures var r := Process(nodes, q[k], memory);
            && (k < |q| - 1 ==> r.out.None? && Collecting(r.nodes, q, k + 1))
            && (k == |q| - 1 && memory ==>
                  && r.out.Some? && r.out.value.frags == q && r.out.value.data == Assembled(q)
                  && |r.out.value.data| == r.out.value.size)
  {
    var i, f := Place(nodes, q), q[k];
    QueueAt(nodes, i);
    var n := Extended(nodes[i], f);
    assert q[..k] + [f] == q[..k + 1];
    assert q[1..k] == q[1..][..k - 1] && q[1..k + 1] == q[1..][..k];
    SumAppend(q[1..], k - 1);
    if f.more {
      UpdateKeeps(nodes, i, n, q[0].sta, q[0].tid);
    } else {
      assert q[..k + 1] == q && q[1..k + 1] == q[1..];
      BodiesLength(q[1..]);
    }
  }

  /** No second node has the MSDU's station and traffic class. */
  ghost predicate Alone(nodes: seq<Node>, q: seq<Frag>)
    requires q != []
  {
    forall i, j :: 0 <= i < j < |nodes| ==>
      !(nodes[i].sta == nodes[j].sta == q[0].sta && nodes[i].tid == nodes[j].tid == q[0].tid)
  }

  /** The MSDU has gone up, and its drained node remembers it. */
  ghost predicate Finished(nodes: seq<Node>, q: seq<Frag>)
    requires q != []
  {
    && At(nodes, q[0].sta, q[0].tid).Some?
    && var n := At(nodes, q[0].sta, q[0].tid).value;
       n.seqNum == q[0].seqNum && n.last == |q| - 1 && n.queue == []
  }

  lemma AloneFinishes(nodes: seq<Node>, i: nat, n: Node, sta: nat, tid: nat)
    requires i < |nodes| && n.sta == sta && n.tid == tid
    requires forall j :: 0 <= j < |nodes| && j != i ==> nodes[j].sta != sta || nodes[j].tid != tid
    ensures At(ToBack(nodes, i, n), sta, tid) == Some(n)
  {
    var rest := nodes[..i] + nodes[i + 1..];
    forall j | 0 <= j < |rest|
      ensures rest[j].sta != sta || rest[j].tid != tid
    {
      assert rest[j] == if j < i then nodes[j] else nodes[j + 1];
    }
    FindNone(rest, sta, tid);
    AtAppend(rest, [n], sta, tid);
    FindIs([n], sta, tid, 0);
  }

  /** The last fragment leaves a drained node that remembers the MSDU. */
  lemma LastFinishes(nodes: seq<Node>, q: seq<Frag>, memory: bool)
    requires Msdu(q) && Collecting(nodes, q, |q| - 1) && nodes != [] && QueuesOk(nodes) && Alone(nodes, q)
    ensures Finished(Process(nodes, q[|q| - 1], memory).nodes, q)
  {
    var i, f := Place(nodes, q), q[|q| - 1];
    FindIsFirst(nodes, q[0].sta, q[0].tid);
    QueueAt(nodes, i);
    forall j | 0 <= j < |nodes| && j != i
      ensures nodes[j].sta != q[0].sta || nodes[j].tid != q[0].tid
    {
      if i < j { assert nodes[i].sta == q[0].sta; }
    }
    AloneFinishes(nodes, i, Drained(Extended(nodes[i], f)), q[0].sta, q[0].tid);
  }

  lemma StaysAlone(nodes: seq<Node>, q: seq<Frag>, f: Frag, memory: bool)
    requires q != [] && At(nodes, q[0].sta, q[0].tid).Some? && Alone(nodes, q)
    requires nodes != [] && QueuesOk(nodes) && WellFormed(f) && !Loses(nodes, q, f)
    ensures Alone(Process(nodes, f, memory).nodes, q)
  {
    FindIsFirst(nodes, f.sta, f.tid);
    if f.num == 0 && Opens(nodes, f) {
      MovedAlone(nodes, Slot(nodes, f), Opened(f), q);
    } else if f.num > 0 && Continues(nodes, f) {
      var j := Find(nodes, f.sta, f.tid);
      QueueAt(nodes, j);
      MovedAlone(nodes, j, Drained(Extended(nodes[j], f)), q);
    }
  }

  lemma MovedAlone(nodes: seq<Node>, j: nat, n: Node, q: seq<Frag>)
    requires q != [] && Alone(nodes, q) && j < |nodes|
    requires (n.sta == nodes[j].sta && n.tid == nodes[j].tid) || n.sta != q[0].sta || n.tid != q[0].tid
    ensures Alone(ToFront(nodes, j, n), q) && Alone(ToBack(nodes, j, n), q)
  {
    var front, back := ToFront(nodes, j, n), ToBack(nodes, j, n);
    assert forall l :: 0 < l < |front| ==> front[l] == if l - 1 < j then nodes[l - 1] else nodes[l];
    assert forall l :: 0 <= l < |back| - 1 ==> back[l] == if l < j then nodes[l] else nodes[l + 1];
  }

  /** When an MSDU in progress is lost: to a newer first fragment of its own, or to the first fragment
      of a key without a node while all three nodes are busy and it is the oldest. */
  lemma LosesMeans(nodes: seq<Node>, q: seq<Frag>, k: nat, f: Frag)
    requires q != [] && AllWellFormed(q) && Good(nodes) && Collecting(nodes, q, k)
    ensures Loses(nodes, q, f) <==>
      && f.num == 0
      && if Own(q, f) then !Leq(f.seqNum, q[0].seqNum)
         else Find(nodes, f.sta, f.tid) == |nodes| && Place(nodes, q) == |nodes| - 1
              && forall j :: 0 <= j < |nodes| ==> Open(nodes[j])
  {
    FindIsFirst(nodes, f.sta, f.tid);
    FindIsFirst(nodes, q[0].sta, q[0].tid);
    assert Open(nodes[Place(nodes, q)]);
  }

  /** And only then: any other fragment leaves it in progress or continues it. */
  lemma LostExactly(nodes: seq<Node>, q: seq<Frag>, k: nat, f: Frag, memory: bool)
    requires q != [] && AllWellFormed(q) && Good(nodes) && Collecting(nodes, q, k)
    requires QueuesOk(nodes) && WellFormed(f)
    requires !(f.num > 0 && Own(q, f) && Continues(nodes, f))
    ensures Collecting(Process(nodes, f, memory).nodes, q, k) <==> !Loses(nodes, q, f)
  {
    if Loses(nodes, q, f) {
      LosesMeans(nodes, q, k, f);
      var i, z := Place(nodes, q), ToFront(nodes, Place(nodes, q), Opened(f));
      FindIsFirst(nodes, q[0].sta, q[0].tid);
      if Own(q, f) {
        FindIs(z, q[0].sta, q[0].tid, 0);
      } else {
        FindNone(z, q[0].sta, q[0].tid);
      }
    } else {
      OthersPass(nodes, q, k, f, memory);
    }
  }

  // ----- any number of fragments

  /** Of the fragments of the MSDU's own station and traffic class those from number k on arrive in
      order, each earlier one possibly repeated at any time, also after the last, and memory suffices
      for the last; whatever arrives of others is free. */
  ghost predicate Arrive(q: seq<Frag>, k: nat, fs: seq<(Frag, bool)>)
    requires q != [] && k <= |q|
    decreases |fs|
  {
    if fs == [] then k == |q|
    else
      var (f, memory) := fs[0];
      if !Own(q, f) then Arrive(q, k, fs[1..])
      else if k < |q| && f == q[k] then (k == |q| - 1 ==> memory) && Arrive(q, k + 1, fs[1..])
      else f in q[..k] && Arrive(q, k, fs[1..])
  }

  ghost predicate NoneOwn(q: seq<Frag>, fs: seq<(Frag, bool)>)
    requires q != []
  {
    forall i :: 0 <= i < |fs| ==> !Own(q, fs[i].0)
  }

  /** Nothing is repeated after the last fragment. */
  ghost predicate Stops(q: seq<Frag>, k: nat, fs: seq<(Frag, bool)>)
    requires q != [] && k <= |q|
    decreases |fs|
  {
    fs == [] ||
    if k == |q| then NoneOwn(q, fs) else Stops(q, if fs[0].0 == q[k] then k + 1 else k, fs[1..])
  }

  /** As long as fragments of its own are to come, no fragment takes the MSDU's node. */
  ghost predicate Undisturbed(nodes: seq<Node>, q: seq<Frag>, k: nat, fs: seq<(Frag, bool)>)
    requires q != [] && k <= |q| && nodes != [] && QueuesOk(nodes) && Runnable(nodes, fs)
    decreases |fs|
  {
    fs == [] || (k == |q| && NoneOwn(q, fs)) ||
    (var (f, memory) := fs[0];
     ProcessQueues(nodes, f, memory);
     && !Loses(nodes, q, f)
     && Undisturbed(Process(nodes, f, memory).nodes, q, if k < |q| && f == q[k] then k + 1 else k, fs[1..]))
  }

  /** What goes up for the MSDU's station and traffic class: an output belongs to its last fragment. */
  function OwnOutputs(q: seq<Frag>, outs: seq<Out>): seq<Out>
    requires q != []
  {
    if outs == [] then []
    else
      var o := outs[0];
      (if o.frags != [] && Own(q, o.frags[|o.frags| - 1]) then [o] else []) + OwnOutputs(q, outs[1..])
  }

  lemma OwnFirst(q: seq<Frag>, out: Option<Out>, rest: seq<Out>)
    requires q != []
    ensures var outs := (if out.Some? then [out.value] else []) + rest;
            OwnOutputs(q, outs) ==
              (if out.Some? && out.value.frags != [] && Own(q, out.value.frags[|out.value.frags| - 1])
               then [out.value] else []) + OwnOutputs(q, rest)
  {
    if out.Some? { assert ([out.value] + rest)[1..] == rest; } else { assert [] + rest == rest; }
  }

  lemma EmittedLast(nodes: seq<Node>, f: Frag, memory: bool)
    requires nodes != [] && QueuesOk(nodes) && WellFormed(f) && Process(nodes, f, memory).out.Some?
    ensures var o := Process(nodes, f, memory).out.value; o.frags != [] && o.frags[|o.frags| - 1] == f
  {
    QueueAt(nodes, Find(nodes, f.sta, f.tid));
  }

  lemma {:induction false} NothingOwn(nodes: seq<Node>, q: seq<Frag>, fs: seq<(Frag, bool)>)
    requires q != [] && nodes != [] && QueuesOk(nodes) && Runnable(nodes, fs) && NoneOwn(q, fs)
    ensures OwnOutputs(q, Outputs(nodes, fs)) == []
    decreases |fs|
  {
    if fs != [] {
      var f, memory := fs[0].0, fs[0].1;
      ProcessQueues(nodes, f, memory);
      var r := Process(nodes, f, memory);
      if r.out.Some? { EmittedLast(nodes, f, memory); }
      hide Process;
      NothingOwn(r.nodes, q, fs[1..]);
      OwnFirst(q, r.out, Outputs(r.nodes, fs[1..]));
    }
  }

  /** A finished MSDU is not accepted again, neither its fragment 0 nor a later one. */
  lemma FinishedIsDropped(nodes: seq<Node>, q: seq<Frag>, f: Frag)
    requires Msdu(q) && Finished(nodes, q) && f in q
    ensures if f.num == 0 then !Opens(nodes, f) else !Continues(nodes, f)
  {
  }

  /** After the MSDU has gone up its repeated fragments make nothing go up. */
  lemma {:induction false} FinishedStaysDown(nodes: seq<Node>, q: seq<Frag>, fs: seq<(Frag, bool)>)
    requires Msdu(q) && nodes != [] && QueuesOk(nodes) && Runnable(nodes, fs) && Arrive(q, |q|, fs)
    requires Finished(nodes, q) && Undisturbed(nodes, q, |q|, fs)
    ensures OwnOutputs(q, Outputs(nodes, fs)) == []
    decreases |fs|
  {
    if NoneOwn(q, fs) {
      NothingOwn(nodes, q, fs);
    } else {
      var f, memory := fs[0].0, fs[0].1;
      ProcessQueues(nodes, f, memory);
      var r := Process(nodes, f, memory);
      if Own(q, f) { FinishedIsDropped(nodes, q, f); }
      OthersKeep(nodes, q, f, memory);
      hide Process;
      FinishedStaysDown(r.nodes, q, fs[1..]);
      OwnFirst(q, r.out, Outputs(r.nodes, fs[1..]));
    }
  }

  /** A repeated fragment is dropped. */
  lemma RepeatIsDropped(nodes: seq<Node>, q: seq<Frag>, k: nat, f: Frag)
    requires Msdu(q) && k < |q| && Collecting(nodes, q, k) && f in q[..k]
    ensures !(f.num > 0 && Own(q, f) && Continues(nodes, f))
  {
  }

  /** The MSDU goes up exactly once, complete. */
  ghost predicate GoesUp(q: seq<Frag>, outs: seq<Out>)
    requires q != [] && AllWellFormed(q)
  {
    var own := OwnOutputs(q, outs);
    |own| == 1 && own[0].frags == q && own[0].data == Assembled(q) && |own[0].data| == own[0].size
  }

  lemma {:induction false} CollectingGoesUp(nodes: seq<Node>, q: seq<Frag>, k: nat, fs: seq<(Frag, bool)>)
    requires Msdu(q) && k < |q| && nodes != [] && QueuesOk(nodes)
    requires Runnable(nodes, fs) && Collecting(nodes, q, k) && Arrive(q, k, fs) && Undisturbed(nodes, q, k, fs)
    requires Alone(nodes, q) || Stops(q, k, fs)
    ensures GoesUp(q, Outputs(nodes, fs))
    decreases |fs|
  {
    var f, memory := fs[0].0, fs[0].1;
    if f == q[k] && k == |q| - 1 {
      LastGoesUp(nodes, q, fs);
    } else {
      ProcessQueues(nodes, f, memory);
      var r := Process(nodes, f, memory);
      var k' := if f == q[k] then k + 1 else k;
      if Alone(nodes, q) { StaysAlone(nodes, q, f, memory); }
      OnItsWay(nodes, q, k, f, memory);
      hide Process, Alone, Collecting, Loses;
      CollectingGoesUp(r.nodes, q, k', fs[1..]);
      OwnFirst(q, r.out, Outputs(r.nodes, fs[1..]));
    }
  }

  /** Before the last fragment nothing of the MSDU's own goes up. */
  lemma OnItsWay(nodes: seq<Node>, q: seq<Frag>, k: nat, f: Frag, memory: bool)
    requires Msdu(q) && k < |q| && nodes != [] && QueuesOk(nodes) && WellFormed(f)
    requires Collecting(nodes, q, k) && !Loses(nodes, q, f)
    requires (f == q[k] && k < |q| - 1) || !Own(q, f) || f in q[..k]
    ensures var r := Process(nodes, f, memory);
            && Collecting(r.nodes, q, if f == q[k] then k + 1 else k)
            && (r.out.Some? ==> r.out.value.frags != [] && !Own(q, r.out.value.frags[|r.out.value.frags| - 1]))
  {
    if f == q[k] {
      NextJoins(nodes, q, k, memory);
    } else {
      if Own(q, f) { RepeatIsDropped(nodes, q, k, f); }
      OthersPass(nodes, q, k, f, memory);
    }
  }

  /** Behind the last fragment there is nothing more of the MSDU's own to go up. */
  lemma LastGoesUp(nodes: seq<Node>, q: seq<Frag>, fs: seq<(Frag, bool)>)
    requires Msdu(q) && nodes != [] && QueuesOk(nodes) && fs != [] && fs[0].0 == q[|q| - 1]
    requires Runnable(nodes, fs) && Collecting(nodes, q, |q| - 1)
    requires Arrive(q, |q| - 1, fs) && Undisturbed(nodes, q, |q| - 1, fs)
    requires Alone(nodes, q) || Stops(q, |q| - 1, fs)
    ensures GoesUp(q, Outputs(nodes, fs))
  {
    var f, memory := fs[0].0, fs[0].1;
    ProcessQueues(nodes, f, memory);
    var r := Process(nodes, f, memory);
    NextJoins(nodes, q, |q| - 1, memory);
    OwnFirst(q, r.out, Outputs(r.nodes, fs[1..]));
    hide Process;
    if Alone(nodes, q) {
      LastFinishes(nodes, q, memory);
      FinishedStaysDown(r.nodes, q, fs[1..]);
    } else {
      NothingOwn(r.nodes, q, fs[1..]);
    }
  }

  /** An MSDU whose fragment 0 is accepted and whose other fragments then arrive in order, repeated or
      not, goes up once, complete, whatever arrives in between from other stations and traffic classes,
      as long as no fragment takes its node. Repetitions after the last fragment are dropped because
      the drained node remembers the number, unless another node has the same key. */
  lemma InterleavedMsduGoesUp(nodes: seq<Node>, q: seq<Frag>, fs: seq<(Frag, bool)>, memory: bool)
    requires Msdu(q) && nodes != [] && QueuesOk(nodes) && Opens(nodes, q[0])
    requires var start := Process(nodes, q[0], memory).nodes;
             && start != [] && QueuesOk(start)
             && Runnable(start, fs) && Arrive(q, 1, fs) && Undisturbed(start, q, 1, fs)
             && (Alone(start, q) || Stops(q, 1, fs))
    ensures GoesUp(q, Outputs(Process(nodes, q[0], memory).nodes, fs))
  {
    var start := Process(nodes, q[0], memory).nodes;
    assert Find(start, q[0].sta, q[0].tid) == 0 && q[..1] == [q[0]] && Sum(q[1..1]) == 0;
    CollectingGoesUp(start, q, 1, fs);
  }

  // ----- the initial nodes

  lemma {:induction false} RunnableAppend(nodes: seq<Node>, fs: seq<(Frag, bool)>, gs: seq<(Frag, bool)>)
    requires nodes != [] && QueuesOk(nodes) && Runnable(nodes, fs)
    requires QueuesOk(NodesAfter(nodes, fs)) && NodesAfter(nodes, fs) != [] && Runnable(NodesAfter(nodes, fs), gs)
    ensures Runnable(nodes, fs + gs)
    decreases |fs|
  {
    if fs == [] {
      assert fs + gs == gs;
    } else {
      ProcessQueues(nodes, fs[0].0, fs[0].1);
      assert (fs + gs)[1..] == fs[1..] + gs && (fs + gs)[0] == fs[0];
      hide Process, Receivable;
      RunnableAppend(Process(nodes, fs[0].0, fs[0].1).nodes, fs[1..], gs);
    }
  }

  lemma {:induction false} OutputsAppend(nodes: seq<Node>, fs: seq<(Frag, bool)>, gs: seq<(Frag, bool)>)
    requires nodes != [] && QueuesOk(nodes) && Runnable(nodes, fs)
    requires QueuesOk(NodesAfter(nodes, fs)) && NodesAfter(nodes, fs) != [] && Runnable(NodesAfter(nodes, fs), gs)
    ensures Runnable(nodes, fs + gs)
    ensures Outputs(nodes, fs + gs) == Outputs(nodes, fs) + Outputs(NodesAfter(nodes, fs), gs)
    decreases |fs|
  {
    RunnableAppend(nodes, fs, gs);
    if fs == [] {
      assert fs + gs == gs;
    } else {
      assert (fs + gs)[1..] == fs[1..] + gs && (fs + gs)[0] == fs[0];
      OutputsFirst(nodes, fs);
      hide Process, Receivable, Runnable, Outputs, NodesAfter, QueuesOk;
      OutputsFirst(nodes, fs + gs);
      var r := Process(nodes, fs[0].0, fs[0].1);
      OutputsAppend(r.nodes, fs[1..], gs);
      Regroup(if r.out.Some? then [r.out.value] else [], Outputs(r.nodes, fs[1..]), Outputs(NodesAfter(nodes, fs), gs));
    }
  }

  lemma Regroup(a: seq<Out>, b: seq<Out>, c: seq<Out>)
    ensures (a + b) + c == a + (b + c)
  {
  }

  lemma OutputsFirst(nodes: seq<Node>, fs: seq<(Frag, bool)>)
    requires nodes != [] && QueuesOk(nodes) && Runnable(nodes, fs) && fs != []
    ensures var r := Process(nodes, fs[0].0, fs[0].1);
            && r.nodes != [] && QueuesOk(r.nodes) && Runnable(r.nodes, fs[1..])
            && Outputs(nodes, fs) == (if r.out.Some? then [r.out.value] else []) + Outputs(r.nodes, fs[1..])
            && NodesAfter(nodes, fs) == NodesAfter(r.nodes, fs[1..])
  {
    ProcessQueues(nodes, fs[0].0, fs[0].1);
  }

  function NodesAfter(nodes: seq<Node>, fs: seq<(Frag, bool)>): seq<Node>
    requires nodes != [] && QueuesOk(nodes) && Runnable(nodes, fs)
    decreases |fs|
  {
    if fs == [] then nodes
    else
      ProcessQueues(nodes, fs[0].0, fs[0].1);
      NodesAfter(Process(nodes, fs[0].0, fs[0].1).nodes, fs[1..])
  }

  /** All three initial nodes have station 0 and class 0, so the first MSDU of that key is forgotten when
      it is complete: repeated as a whole it goes up twice. */
  lemma RepeatedGoesUpTwice(a: Frag, b: Frag)
    requires Msdu([a, b]) && a.sta == 0 && a.tid == 0 && !Leq(a.seqNum, 0)
    ensures var fs := WithMemory([a, b]) + WithMemory([a, b]);
            && Runnable(Fresh(), fs) && |Outputs(Fresh(), fs)| == 2
            && Outputs(Fresh(), fs)[0].frags == [a, b] && Outputs(Fresh(), fs)[1].frags == [a, b]
  {
    FreshGood();
    FreshSequenced();
    var q, fs := [a, b], WithMemory([a, b]);
    FragmentsAreReassembled(Fresh(), q);
    var z := PairAfter(a, b);
    FragmentsAreReassembled(z, q);
    OutputsAppend(Fresh(), fs, fs);
  }

  lemma PairAfter(a: Frag, b: Frag) returns (z: seq<Node>)
    requires Msdu([a, b]) && a.sta == 0 && a.tid == 0 && !Leq(a.seqNum, 0)
    ensures QueuesOk(Fresh()) && Runnable(Fresh(), WithMemory([a, b]))
    ensures z == NodesAfter(Fresh(), WithMemory([a, b])) && Good(z) && QueuesOk(z) && Opens(z, a)
  {
    FreshGood();
    FreshSequenced();
    FragmentsAreReassembled(Fresh(), [a, b]);
    var fs := WithMemory([a, b]);
    assert fs == [(a, true), (b, true)] && fs[1..] == [(b, true)] && fs[1..][1..] == [];
    var y := Process(Fresh(), a, true).nodes;
    ProcessQueues(Fresh(), a, true);
    StepGood(Fresh(), a, true);
    PairNodes(y, a, b);
    z := Process(y, b, true).nodes;
    ProcessQueues(y, b, true);
    assert NodesAfter(Fresh(), fs) == NodesAfter(y, fs[1..]) == NodesAfter(z, []) == z;
  }

  lemma PairNodes(y: seq<Node>, a: Frag, b: Frag)
    requires Msdu([a, b]) && a.sta == 0 && a.tid == 0 && !Leq(a.seqNum, 0)
    requires y == Process(Fresh(), a, true).nodes && QueuesOk(Fresh()) && QueuesOk(y) && Good(y)
    ensures Admissible(y, b) && Good(Process(y, b, true).nodes) && Opens(Process(y, b, true).nodes, a)
  {
    var n := Opened(a);
    assert Find(Fresh(), 0, 0) == 0;
    assert y[0] == n && Find(y, 0, 0) == 0;
    assert [a, b][1..] == [b] && [b][..0] == [];
    assert Sum([b]) == Sum([]) + FragLen(b);
    StepGood(y, b, true);
    var z := Process(y, b, true).nodes;
    assert z == ToBack(y, 0, Drained(Extended(n, b)));
    assert z[0] == y[1] == Fresh()[1];
    FindIs(z, 0, 0, 0);
  }
}
