/** Reassembly of fragmented MSDUs (defrag.c; section 9.6 of IEEE 802.11-2012): three nodes in a list
    whose order says which one to reuse. */
module Defrag {
  import opened Common
  import opened SeqNo

  const MAX_DEFRAG_NUM := 3
  const ETH_HLEN := 14
  const ETH_ALEN := 6

  /** One received fragment: the descriptor fields used here and the bytes of its buffer. */
  datatype Frag = Frag(sta: nat, tid: nat, seqNum: Seq12, num: nat, more: bool, snap: bool,
                       msduOffset: nat, msduLen: nat, data: seq<Byte>)

  datatype Node = Node(sta: nat, tid: nat, seqNum: Seq12, last: nat, msduLen: nat, queue: seq<Frag>)

  /** What goes up: a buffer of `size` bytes holding `data`, with the first fragment's descriptor and
      its sixteen-bit length field rewritten. `frags` are the fragments it was made of. */
  datatype Out = Out(first: Frag, msduLen: nat, size: nat, data: seq<Byte>, frags: seq<Frag>)

  function Hdr(f: Frag): nat {
    if f.snap then ETH_HLEN else 2 * ETH_ALEN
  }

  /** msdu_total_len */
  function Total(f: Frag): nat {
    f.msduOffset + f.msduLen
  }

  predicate WellFormed(f: Frag) {
    Hdr(f) <= f.msduLen && Total(f) <= |f.data|
  }

  function FragLen(f: Frag): nat
    requires WellFormed(f)
  {
    f.msduLen - Hdr(f)
  }

  /** The bytes of a fragment after its header. */
  function Body(f: Frag): seq<Byte>
    requires WellFormed(f)
  {
    f.data[f.msduOffset + Hdr(f)..Total(f)]
  }

  // ----- what a reassembled MSDU is

  predicate AllWellFormed(q: seq<Frag>) {
    forall i :: 0 <= i < |q| ==> WellFormed(q[i])
  }

  function Bodies(q: seq<Frag>): seq<Byte>
    requires AllWellFormed(q)
  {
    if q == [] then [] else Bodies(q[..|q| - 1]) + Body(q[|q| - 1])
  }

  /** The first fragment in full, then what the others carry after their headers. */
  function Assembled(q: seq<Frag>): seq<Byte>
    requires AllWellFormed(q) && q != []
  {
    q[0].data[..Total(q[0])] + Bodies(q[1..])
  }

  /** Fragments 0, 1, ... of one MSDU of one station and traffic class. */
  predicate Consecutive(q: seq<Frag>, sta: nat, tid: nat, seqNum: Seq12) {
    forall i :: 0 <= i < |q| ==>
      q[i].num == i && q[i].sta == sta && q[i].tid == tid && q[i].seqNum == seqNum
  }

  // ----- the list of nodes

  /** The first node of the station and traffic class, or the length of the list. */
  function Find(nodes: seq<Node>, sta: nat, tid: nat): (i: nat)
    ensures i <= |nodes|
  {
    if nodes == [] then 0
    else if nodes[0].sta == sta && nodes[0].tid == tid then 0
    else 1 + Find(nodes[1..], sta, tid)
  }

  lemma {:induction false} FindIsFirst(nodes: seq<Node>, sta: nat, tid: nat)
    ensures var i := Find(nodes, sta, tid);
            && (i < |nodes| ==> nodes[i].sta == sta && nodes[i].tid == tid)
            && (forall k :: 0 <= k < i ==> nodes[k].sta != sta || nodes[k].tid != tid)
  {
    if nodes != [] && !(nodes[0].sta == sta && nodes[0].tid == tid) {
      FindIsFirst(nodes[1..], sta, tid);
      assert forall k :: 1 <= k < |nodes| ==> nodes[k] == nodes[1..][k - 1];
    }
  }

  function ToFront(nodes: seq<Node>, i: nat, n: Node): seq<Node>
    requires i < |nodes|
  {
    [n] + nodes[..i] + nodes[i + 1..]
  }

  function ToBack(nodes: seq<Node>, i: nat, n: Node): seq<Node>
    requires i < |nodes|
  {
    nodes[..i] + nodes[i + 1..] + [n]
  }

  /** find_defrag_node accepts the fragment: the node is alive and expects this number. */
  predicate Continues(nodes: seq<Node>, f: Frag) {
    var i := Find(nodes, f.sta, f.tid);
    i < |nodes| && nodes[i].seqNum == f.seqNum && nodes[i].last + 1 == f.num
  }

  /** init_first_defrag_node: a first fragment that is not newer than what its node has seen is
      dropped; otherwise it opens that node, or the last one of the list. */
  predicate Opens(nodes: seq<Node>, f: Frag) {
    var i := Find(nodes, f.sta, f.tid);
    i < |nodes| ==> !Leq(f.seqNum, nodes[i].seqNum)
  }

  function Slot(nodes: seq<Node>, f: Frag): nat
    requires nodes != []
  {
    var i := Find(nodes, f.sta, f.tid);
    if i < |nodes| then i else |nodes| - 1
  }

  function Opened(f: Frag): Node
    requires WellFormed(f)
  {
    Node(f.sta, f.tid, f.seqNum, 0, Hdr(f) + f.msduOffset + FragLen(f), [f])
  }

  function Extended(n: Node, f: Frag): Node
    requires WellFormed(f)
  {
    n.(last := f.num, msduLen := n.msduLen + FragLen(f), queue := n.queue + [f])
  }

  /** A node whose fragments have all been taken out; its key and counters stay. */
  function Drained(n: Node): Node {
    n.(queue := [])
  }

  predicate QueuesOk(nodes: seq<Node>) {
    forall n :: n in nodes ==> AllWellFormed(n.queue)
  }

  datatype Result = Result(nodes: seq<Node>, out: Option<Out>)

  function Emitted(n: Node): Out
    requires n.queue != [] && AllWellFormed(n.queue)
  {
    Out(n.queue[0], (n.msduLen - n.queue[0].msduOffset) % 0x1_0000, n.msduLen, Assembled(n.queue), n.queue)
  }

  /** defrag_single_data_process for fragments that continue or end an MSDU or start a longer one;
      `memory` says whether the buffer for the result can be allocated. */
  function Process(nodes: seq<Node>, f: Frag, memory: bool): Result
    requires nodes != [] && WellFormed(f)
    requires QueuesOk(nodes)
  {
    if f.num == 0 then
      if Opens(nodes, f) then Result(ToFront(nodes, Slot(nodes, f), Opened(f)), None) else Result(nodes, None)
    else if !Continues(nodes, f) then
      Result(nodes, None)
    else
      var i := Find(nodes, f.sta, f.tid);
      var n := Extended(nodes[i], f);
      assert nodes[i] in nodes && AllWellFormed(nodes[i].queue) && AllWellFormed(n.queue);
      if f.more then Result(nodes[i := n], None)
      else Result(ToBack(nodes, i, Drained(n)), if memory then Some(Emitted(n)) else None)
  }

  // ----- invariants

  predicate Open(n: Node) {
    n.queue != []
  }

  function Sum(q: seq<Frag>): nat
    requires AllWellFormed(q)
  {
    if q == [] then 0 else Sum(q[..|q| - 1]) + FragLen(q[|q| - 1])
  }

  /** A reassembly in progress: fragments 0 .. last without a gap, their bytes counted exactly. */
  ghost predicate InProgress(n: Node) {
    && n.queue != [] && AllWellFormed(n.queue)
    && Consecutive(n.queue, n.sta, n.tid, n.seqNum)
    && n.last == |n.queue| - 1
    && n.msduLen == Total(n.queue[0]) + Sum(n.queue[1..])
  }

  ghost predicate OpenFirst(nodes: seq<Node>) {
    forall i, j :: 0 <= i < j < |nodes| && Open(nodes[j]) ==> Open(nodes[i])
  }

  ghost predicate Good(nodes: seq<Node>) {
    && |nodes| == MAX_DEFRAG_NUM
    && (forall i :: 0 <= i < |nodes| && Open(nodes[i]) ==> InProgress(nodes[i]))
    && OpenFirst(nodes)
    && (forall i, j :: 0 <= i < j < |nodes| && Open(nodes[j]) ==>
          nodes[i].sta != nodes[j].sta || nodes[i].tid != nodes[j].tid)
  }

  /** A fragment as the driver passes it on, which does not take the MSDU it may join beyond its
      sixteen-bit length. */
  predicate Receivable(nodes: seq<Node>, f: Frag) {
    && WellFormed(f) && (f.num == 0 ==> f.more)
    && (f.num == 0 ==> Total(f) < 0x1_0000)
    && (f.num > 0 && Continues(nodes, f) ==>
          nodes[Find(nodes, f.sta, f.tid)].msduLen + FragLen(f) < 0x1_0000)
  }

  /** Not a continuation that a node accepts outside an open reassembly either. */
  predicate Admissible(nodes: seq<Node>, f: Frag) {
    Receivable(nodes, f) && (f.num > 0 && Continues(nodes, f) ==> Open(nodes[Find(nodes, f.sta, f.tid)]))
  }

  lemma ExtendInProgress(n: Node, f: Frag)
    requires InProgress(n) && WellFormed(f)
    requires f.sta == n.sta && f.tid == n.tid && f.seqNum == n.seqNum && f.num == n.last + 1
    ensures InProgress(Extended(n, f))
  {
    var q := n.queue + [f];
    assert q[1..][..|q[1..]| - 1] == n.queue[1..];
  }

  /** Every step keeps the invariant: nodes in progress are well formed and form a prefix of the list. */
  lemma StepGood(nodes: seq<Node>, f: Frag, memory: bool)
    requires Good(nodes) && Admissible(nodes, f)
    requires QueuesOk(nodes)
    ensures Good(Process(nodes, f, memory).nodes)
  {
    FindIsFirst(nodes, f.sta, f.tid);
    var i := Find(nodes, f.sta, f.tid);
    if f.num == 0 {
      if Opens(nodes, f) {
        OpenGood(nodes, Slot(nodes, f), Opened(f));
      }
    } else if Continues(nodes, f) {
      ExtendInProgress(nodes[i], f);
      var n := Extended(nodes[i], f);
      if !f.more { CloseGood(nodes, i, Drained(n)); }
    }
  }

  lemma OpenGood(nodes: seq<Node>, i: nat, n: Node)
    requires Good(nodes) && i < |nodes| && Open(n) && InProgress(n)
    requires (nodes[i].sta == n.sta && nodes[i].tid == n.tid)
          || forall k :: 0 <= k < |nodes| ==> nodes[k].sta != n.sta || nodes[k].tid != n.tid
    requires forall k :: 0 <= k < i ==> nodes[k].sta != n.sta || nodes[k].tid != n.tid
    ensures Good(ToFront(nodes, i, n))
  {
    hide InProgress;
    var z := ToFront(nodes, i, n);
    if i == 0 { assert z == [n, nodes[1], nodes[2]]; }
    else if i == 1 { assert z == [n, nodes[0], nodes[2]]; }
    else { assert z == [n, nodes[0], nodes[1]]; }
  }

  lemma CloseGood(nodes: seq<Node>, i: nat, n: Node)
    requires Good(nodes) && i < |nodes| && !Open(n)
    ensures Good(ToBack(nodes, i, n))
  {
    hide InProgress;
    var z := ToBack(nodes, i, n);
    if i == 0 { assert z == [nodes[1], nodes[2], n]; }
    else if i == 1 { assert z == [nodes[0], nodes[2], n]; }
    else { assert z == [nodes[0], nodes[1], n]; }
  }

  /** Starting an MSDU of a new station or traffic class throws away an unfinished one only when all
      three nodes are busy. */
  lemma EvictionOnlyWhenFull(nodes: seq<Node>, f: Frag)
    requires Good(nodes) && f.num == 0 && Find(nodes, f.sta, f.tid) == |nodes|
    ensures Open(nodes[Slot(nodes, f)]) <==> forall i :: 0 <= i < |nodes| ==> Open(nodes[i])
  {
  }

  lemma {:induction false} BodiesLength(q: seq<Frag>)
    requires AllWellFormed(q)
    ensures |Bodies(q)| == Sum(q)
  {
    if q != [] { BodiesLength(q[..|q| - 1]); }
  }

  /** What goes up was made of consecutive fragments of one MSDU, ending with the one just received,
      and fills exactly the buffer allocated for it. */
  lemma OutputIsExact(nodes: seq<Node>, f: Frag)
    requires Good(nodes) && Admissible(nodes, f)
    requires QueuesOk(nodes)
    requires Process(nodes, f, true).out.Some?
    ensures var o := Process(nodes, f, true).out.value;
            && |o.frags| >= 2 && o.frags[|o.frags| - 1] == f && !f.more
            && Consecutive(o.frags, f.sta, f.tid, f.seqNum)
            && AllWellFormed(o.frags) && o.data == Assembled(o.frags)
            && |o.data| == o.size < 0x1_0000
            && o.first == o.frags[0] && o.first.msduOffset + o.msduLen == o.size
  {
    FindIsFirst(nodes, f.sta, f.tid);
    var n := nodes[Find(nodes, f.sta, f.tid)];
    ExtendInProgress(n, f);
    BodiesLength(Extended(n, f).queue[1..]);
  }

  // ----- runs

  predicate Runnable(nodes: seq<Node>, fs: seq<(Frag, bool)>)
    requires nodes != [] && QueuesOk(nodes)
    decreases |fs|
  {
    fs == [] ||
    (Receivable(nodes, fs[0].0) &&
     (ProcessQueues(nodes, fs[0].0, fs[0].1);
      Runnable(Process(nodes, fs[0].0, fs[0].1).nodes, fs[1..])))
  }

  function Outputs(nodes: seq<Node>, fs: seq<(Frag, bool)>): seq<Out>
    requires nodes != [] && QueuesOk(nodes)
    requires Runnable(nodes, fs)
    decreases |fs|
  {
    if fs == [] then []
    else
      ProcessQueues(nodes, fs[0].0, fs[0].1);
      var r := Process(nodes, fs[0].0, fs[0].1);
      (if r.out.Some? then [r.out.value] else []) + Outputs(r.nodes, fs[1..])
  }

  lemma ProcessQueues(nodes: seq<Node>, f: Frag, memory: bool)
    requires nodes != [] && WellFormed(f) && QueuesOk(nodes)
    ensures Process(nodes, f, memory).nodes != []
    ensures QueuesOk(Process(nodes, f, memory).nodes)
  {
    var z := Process(nodes, f, memory).nodes;
    forall n | n in z
      ensures AllWellFormed(n.queue)
    {
      if n !in nodes {
        if f.num > 0 && Continues(nodes, f) {
          var m := nodes[Find(nodes, f.sta, f.tid)];
          assert m in nodes && AllWellFormed(m.queue);
        }
      }
    }
  }

  /** A correct reassembly out of the fragments in `seen`. */
  ghost predicate Correct(o: Out, seen: seq<Frag>) {
    && o.frags != [] && AllWellFormed(o.frags)
    && Consecutive(o.frags, o.frags[0].sta, o.frags[0].tid, o.frags[0].seqNum)
    && !o.frags[|o.frags| - 1].more
    && o.data == Assembled(o.frags) && |o.data| == o.size
    && o.first.msduOffset + o.msduLen == o.size && o.first == o.frags[0]
    && (forall f :: f in o.frags ==> f in seen)
  }

  ghost predicate QueuedFrom(nodes: seq<Node>, seen: seq<Frag>) {
    forall i, k :: 0 <= i < |nodes| && 0 <= k < |nodes[i].queue| ==> nodes[i].queue[k] in seen
  }

  lemma StepQueued(nodes: seq<Node>, f: Frag, memory: bool, seen: seq<Frag>)
    requires nodes != [] && WellFormed(f) && QueuesOk(nodes)
    requires QueuedFrom(nodes, seen)
    ensures QueuedFrom(Process(nodes, f, memory).nodes, seen + [f])
    ensures Process(nodes, f, memory).out.Some? ==>
              forall g :: g in Process(nodes, f, memory).out.value.frags ==> g in seen + [f]
  {
  }

  function Firsts(fs: seq<(Frag, bool)>): seq<Frag> {
    if fs == [] then [] else [fs[0].0] + Firsts(fs[1..])
  }

  // ----- stray continuations

  /** What every queue is, stray continuations included: fragments of one MSDU with consecutive
      numbers, and the bytes counted exactly if the first of them has number 0. */
  ghost predicate Sequenced(n: Node) {
    n.queue != [] ==>
      && AllWellFormed(n.queue)
      && (forall i :: 0 <= i < |n.queue| ==>
            && n.queue[i].sta == n.sta && n.queue[i].tid == n.tid && n.queue[i].seqNum == n.seqNum
            && n.queue[i].num == n.queue[0].num + i)
      && n.last == n.queue[0].num + |n.queue| - 1
      && (n.queue[0].num == 0 ==> n.msduLen == Total(n.queue[0]) + Sum(n.queue[1..]) < 0x1_0000)
  }

  ghost predicate AllSequenced(nodes: seq<Node>) {
    nodes != [] && forall i :: 0 <= i < |nodes| ==> Sequenced(nodes[i])
  }

  lemma ExtendSequenced(n: Node, f: Frag)
    requires Sequenced(n) && WellFormed(f) && f.num > 0 && n.msduLen + FragLen(f) < 0x1_0000
    requires f.sta == n.sta && f.tid == n.tid && f.seqNum == n.seqNum && f.num == n.last + 1
    ensures Sequenced(Extended(n, f))
  {
    if n.queue != [] {
      var q := n.queue + [f];
      assert q[1..][..|q[1..]| - 1] == n.queue[1..];
    }
  }

  /** Every step keeps it, whatever arrives. */
  lemma StepSequenced(nodes: seq<Node>, f: Frag, memory: bool)
    requires AllSequenced(nodes) && QueuesOk(nodes) && Receivable(nodes, f)
    ensures AllSequenced(Process(nodes, f, memory).nodes)
  {
    FindIsFirst(nodes, f.sta, f.tid);
    var i := Find(nodes, f.sta, f.tid);
    if f.num == 0 {
      assert Sequenced(Opened(f));
    } else if Continues(nodes, f) {
      ExtendSequenced(nodes[i], f);
    }
  }

  lemma EmittedCorrect(n: Node, seen: seq<Frag>)
    requires Sequenced(n) && n.queue != [] && AllWellFormed(n.queue)
    requires !n.queue[|n.queue| - 1].more && forall f :: f in n.queue ==> f in seen
    ensures Correct(Emitted(n), seen) <==> n.queue[0].num == 0
  {
    BodiesLength(n.queue[1..]);
  }

  /** What goes up is a correct reassembly if and only if its first fragment has number 0. */
  lemma OutputNeedsItsHead(nodes: seq<Node>, f: Frag, seen: seq<Frag>)
    requires AllSequenced(nodes) && QueuesOk(nodes) && Receivable(nodes, f) && QueuedFrom(nodes, seen)
    requires Process(nodes, f, true).out.Some?
    ensures var o := Process(nodes, f, true).out.value;
            o.frags != [] && (Correct(o, seen + [f]) <==> o.frags[0].num == 0)
  {
    FindIsFirst(nodes, f.sta, f.tid);
    var n := nodes[Find(nodes, f.sta, f.tid)];
    ExtendSequenced(n, f);
    StepQueued(nodes, f, true, seen);
    hide Correct, Sequenced;
    EmittedCorrect(Extended(n, f), seen + [f]);
  }

  /** What a node's count holds beyond the queued bodies: offset and header of the fragment 0 that
      opened it, or what an earlier MSDU left behind when a stray continuation did. */
  function Base(n: Node): int
    requires AllWellFormed(n.queue)
  {
    n.msduLen - Sum(n.queue)
  }

  lemma {:induction false} SumHead(q: seq<Frag>)
    requires AllWellFormed(q) && q != []
    ensures Sum(q) == FragLen(q[0]) + Sum(q[1..])
  {
    if |q| > 1 {
      SumHead(q[..|q| - 1]);
      assert q[..|q| - 1][1..] == q[1..][..|q| - 2];
    } else {
      assert Sum(q[..0]) == 0;
    }
  }

  /** The bytes that go up match the buffer allocated for them if and only if that base equals offset
      and header of the fragment they begin with; the queueing of fragments never changes it. */
  lemma StrayFragment(nodes: seq<Node>, f: Frag)
    requires WellFormed(f) && f.num > 0 && !f.more && Continues(nodes, f)
    requires QueuesOk(nodes)
    ensures var n := nodes[Find(nodes, f.sta, f.tid)]; var o := Process(nodes, f, true).out.value;
            && AllWellFormed(n.queue) && Base(Extended(n, f)) == Base(n)
            && o.frags == n.queue + [f]
            && |o.data| - o.size == Hdr(o.first) + o.first.msduOffset - Base(n)
  {
    var n := nodes[Find(nodes, f.sta, f.tid)];
    assert n in nodes;
    var q := n.queue + [f];
    assert q[..|q| - 1] == n.queue;
    SumHead(q);
    BodiesLength(q[1..]);
  }

  lemma CorrectGrows(o: Out, seen: seq<Frag>, more: seq<Frag>)
    requires forall f :: f in o.frags ==> f in seen
    ensures Correct(o, seen + more) <==> Correct(o, seen)
  {
  }

  lemma {:induction false} RunOutputs(nodes: seq<Node>, fs: seq<(Frag, bool)>, seen: seq<Frag>)
    requires AllSequenced(nodes) && QueuedFrom(nodes, seen)
    requires QueuesOk(nodes)
    requires Runnable(nodes, fs)
    ensures forall o :: o in Outputs(nodes, fs) ==>
              o.frags != [] && (Correct(o, seen + Firsts(fs)) <==> o.frags[0].num == 0)
    decreases |fs|
  {
    if fs != [] {
      var f, memory := fs[0].0, fs[0].1;
      ProcessQueues(nodes, f, memory);
      StepSequenced(nodes, f, memory);
      StepQueued(nodes, f, memory, seen);
      var r := Process(nodes, f, memory);
      RunOutputs(r.nodes, fs[1..], seen + [f]);
      assert seen + Firsts(fs) == seen + [f] + Firsts(fs[1..]);
      if r.out.Some? {
        OutputNeedsItsHead(nodes, f, seen);
        assert Process(nodes, f, true).out == r.out;
        CorrectGrows(r.out.value, seen + [f], Firsts(fs[1..]));
      }
    }
  }

  /** No continuation of the run is accepted outside an open reassembly. */
  ghost predicate Orderly(nodes: seq<Node>, fs: seq<(Frag, bool)>)
    requires nodes != [] && QueuesOk(nodes) && Runnable(nodes, fs)
    decreases |fs|
  {
    fs == [] ||
    (Admissible(nodes, fs[0].0) &&
     (ProcessQueues(nodes, fs[0].0, fs[0].1);
      Orderly(Process(nodes, fs[0].0, fs[0].1).nodes, fs[1..])))
  }

  /** Then everything that goes up begins with its fragment 0. */
  lemma {:induction false} OrderlyOutputs(nodes: seq<Node>, fs: seq<(Frag, bool)>)
    requires Good(nodes) && QueuesOk(nodes)
    requires Runnable(nodes, fs) && Orderly(nodes, fs)
    ensures forall o :: o in Outputs(nodes, fs) ==> o.frags != [] && o.frags[0].num == 0
    decreases |fs|
  {
    if fs != [] {
      var f, memory := fs[0].0, fs[0].1;
      ProcessQueues(nodes, f, memory);
      StepGood(nodes, f, memory);
      var r := Process(nodes, f, memory);
      OrderlyOutputs(r.nodes, fs[1..]);
      if r.out.Some? {
        OutputIsExact(nodes, f);
        assert Process(nodes, f, true).out == r.out;
      }
    }
  }

  // ----- completeness

  /** The fragments of one MSDU: numbered from 0 without a gap, every one but the last announcing
      more, within the sixteen-bit length. */
  ghost predicate Msdu(q: seq<Frag>) {
    && |q| >= 2 && AllWellFormed(q)
    && Consecutive(q, q[0].sta, q[0].tid, q[0].seqNum)
    && (forall i :: 0 <= i < |q| ==> (q[i].more <==> i < |q| - 1))
    && Total(q[0]) + Sum(q[1..]) < 0x1_0000
  }

  /** The node at the head of the list has collected the first k fragments of q. */
  ghost predicate Collected(nodes: seq<Node>, q: seq<Frag>, k: nat)
    requires q != [] && k <= |q|
  {
    && Good(nodes) && QueuesOk(nodes) && k > 0
    && nodes[0].sta == q[0].sta && nodes[0].tid == q[0].tid && nodes[0].seqNum == q[0].seqNum
    && nodes[0].queue == q[..k]
  }

  /** `with memory` tags fragments for a run in which every allocation succeeds. */
  function WithMemory(q: seq<Frag>): (fs: seq<(Frag, bool)>)
    ensures |fs| == |q| && forall i :: 0 <= i < |q| ==> fs[i] == (q[i], true)
  {
    if q == [] then [] else [(q[0], true)] + WithMemory(q[1..])
  }

  lemma CollectNext(nodes: seq<Node>, q: seq<Frag>, k: nat)
    requires Msdu(q) && 0 < k < |q| && Collected(nodes, q, k)
    ensures Admissible(nodes, q[k])
    ensures var r := Process(nodes, q[k], true);
            && (k < |q| - 1 ==> r.out.None? && Collected(r.nodes, q, k + 1))
            && (k == |q| - 1 ==> r.out.Some? && r.out.value.frags == q && r.out.value.data == Assembled(q))
  {
    var n, f := nodes[0], q[k];
    assert InProgress(n);
    assert Find(nodes, f.sta, f.tid) == 0;
    assert q[..k][1..] == q[1..][..k - 1];
    SumAppend(q[1..], k - 1);
    assert q[..k] + [f] == q[..k + 1];
    StepGood(nodes, f, true);
    ProcessQueues(nodes, f, true);
    if k == |q| - 1 { assert q[..k + 1] == q; }
  }

  lemma {:induction false} CollectRest(nodes: seq<Node>, q: seq<Frag>, k: nat)
    requires Msdu(q) && 0 < k < |q| && Collected(nodes, q, k)
    ensures Runnable(nodes, WithMemory(q[k..]))
    ensures |Outputs(nodes, WithMemory(q[k..]))| == 1
    ensures Outputs(nodes, WithMemory(q[k..]))[0].frags == q
    ensures Outputs(nodes, WithMemory(q[k..]))[0].data == Assembled(q)
    decreases |q| - k
  {
    CollectNext(nodes, q, k);
    var fs := WithMemory(q[k..]);
    var r := Process(nodes, q[k], true);
    ProcessQueues(nodes, q[k], true);
    assert q[k..][1..] == q[k + 1..];
    assert fs[1..] == WithMemory(q[k + 1..]);
    if k < |q| - 1 {
      CollectRest(r.nodes, q, k + 1);
    } else {
      assert fs[1..] == [];
    }
  }

  /** An MSDU whose first fragment is accepted, and whose fragments then arrive one after the other,
      goes up exactly once, complete. */
  lemma FragmentsAreReassembled(nodes: seq<Node>, q: seq<Frag>)
    requires Good(nodes) && QueuesOk(nodes) && Msdu(q) && Opens(nodes, q[0])
    ensures Runnable(nodes, WithMemory(q))
    ensures |Outputs(nodes, WithMemory(q))| == 1
    ensures Outputs(nodes, WithMemory(q))[0].frags == q && Outputs(nodes, WithMemory(q))[0].data == Assembled(q)
  {
    var r := Process(nodes, q[0], true);
    StepGood(nodes, q[0], true);
    ProcessQueues(nodes, q[0], true);
    assert q[..1] == [q[0]];
    CollectRest(r.nodes, q, 1);
    assert WithMemory(q)[1..] == WithMemory(q[1..]);
  }

  // ----- the driver's entry

  /** Three zeroed nodes, as sprdwl_defrag_init leaves them. */
  function Fresh(): seq<Node> {
    var n := Node(0, 0, 0, 0, 0, []);
    [n, n, n]
  }

  lemma FreshGood()
    ensures Good(Fresh())
  {
  }

  lemma FreshSequenced()
    ensures AllSequenced(Fresh()) && QueuesOk(Fresh()) && QueuedFrom(Fresh(), [])
  {
  }

  /** Over any run from the initial nodes, stray continuations included, what goes up is a correct
      reassembly of received fragments if and only if it begins with fragment 0. */
  lemma EveryOutputNeedsItsHead(fs: seq<(Frag, bool)>)
    requires Runnable(Fresh(), fs)
    ensures forall o :: o in Outputs(Fresh(), fs) ==>
              o.frags != [] && (Correct(o, Firsts(fs)) <==> o.frags[0].num == 0)
  {
    FreshSequenced();
    hide Good, AllSequenced, QueuesOk, QueuedFrom, Fresh, Outputs, Runnable, Correct;
    RunOutputs(Fresh(), fs, []);
    assert [] + Firsts(fs) == Firsts(fs);
  }

  /** Without stray continuations everything that goes up is correct. */
  lemma EveryOutputIsCorrect(fs: seq<(Frag, bool)>)
    requires Runnable(Fresh(), fs) && Orderly(Fresh(), fs)
    ensures forall o :: o in Outputs(Fresh(), fs) ==> Correct(o, Firsts(fs))
  {
    FreshGood();
    FreshSequenced();
    hide Good, AllSequenced, QueuesOk, QueuedFrom, Fresh, Outputs, Runnable, Orderly, Correct;
    EveryOutputNeedsItsHead(fs);
    OrderlyOutputs(Fresh(), fs);
  }

  /** An initial node already expects fragment 1 of number 0 from station 0: fragments 1 and 2 of an
      MSDU whose fragment 0 was lost go up as if they were one. */
  lemma StrayFragments(f: Frag, g: Frag)
    requires WellFormed(f) && WellFormed(g) && FragLen(f) + FragLen(g) < 0x1_0000
    requires f.sta == 0 && f.tid == 0 && f.seqNum == 0 && f.num == 1 && f.more
    requires g.sta == 0 && g.tid == 0 && g.seqNum == 0 && g.num == 2 && !g.more
    ensures var fs := [(f, true), (g, true)];
            && Runnable(Fresh(), fs) && |Outputs(Fresh(), fs)| == 1
            && Outputs(Fresh(), fs)[0].frags == [f, g]
            && !Correct(Outputs(Fresh(), fs)[0], [f, g])
  {
    var fs := [(f, true), (g, true)];
    FreshSequenced();
    var nodes := Process(Fresh(), f, true).nodes;
    ProcessQueues(Fresh(), f, true);
    assert nodes[0] == Extended(Fresh()[0], f);
    StrayEnds(nodes, f, g);
    ProcessQueues(nodes, g, true);
    assert fs[1..] == [(g, true)] && [(g, true)][1..] == [];
    hide Process, Receivable;
    assert Outputs(nodes, [(g, true)]) == [Process(nodes, g, true).out.value] + [];
  }

  lemma StrayEnds(nodes: seq<Node>, f: Frag, g: Frag)
    requires nodes != [] && QueuesOk(nodes) && WellFormed(f) && WellFormed(g)
    requires nodes[0] == Node(0, 0, 0, 1, FragLen(f), [f]) && FragLen(f) + FragLen(g) < 0x1_0000
    requires f.num == 1 && g.sta == 0 && g.tid == 0 && g.seqNum == 0 && g.num == 2 && !g.more
    ensures Receivable(nodes, g)
    ensures var r := Process(nodes, g, true);
            r.out.Some? && r.out.value.frags == [f, g] && !Correct(r.out.value, [f, g])
  {
    assert [f] + [g] == [f, g];
    assert Find(nodes, 0, 0) == 0;
  }

  datatype Delivery = Whole(frag: Frag) | Reassembled(out: Out) | Nothing | Overrun

  lemma {:induction false} SumAppend(q: seq<Frag>, k: nat)
    requires AllWellFormed(q) && k < |q|
    ensures Sum(q[..k + 1]) == Sum(q[..k]) + FragLen(q[k])
    ensures Bodies(q[..k + 1]) == Bodies(q[..k]) + Body(q[k])
    ensures Sum(q[..k + 1]) <= Sum(q)
    decreases |q| - k
  {
    assert q[..k + 1][..k] == q[..k];
    if k + 1 < |q| {
      SumAppend(q, k + 1);
    } else {
      assert q[..k + 1] == q;
    }
  }

  /** The copy loop of defrag_single_data_process. It stays inside the buffer if and only if the queue
      fits it, and then the bytes written are the reassembled MSDU; otherwise the method stops where
      the next write would leave the buffer. */
  method Reassemble(q: seq<Frag>, size: nat) returns (buf: array<Byte>, offset: nat, fits: bool)
    requires q != [] && AllWellFormed(q) && size < 0x1_0000
    ensures fresh(buf) && buf.Length == size && offset <= size
    ensures fits <==> Total(q[0]) + Sum(q[1..]) <= size
    ensures fits ==> offset == |Assembled(q)| == Total(q[0]) + Sum(q[1..]) && buf[..offset] == Assembled(q)
  {
    AssembledParts(q);
    hide Sum, Bodies, Body, Total, Hdr, Assembled, WellFormed, AllWellFormed, FragLen;
    buf := new Byte[size](_ => 0);
    if Total(q[0]) > size {
      return buf, 0, false;
    }
    offset := Total(q[0]);
    Copy(buf, 0, q[0].data, 0, offset);
    var k := 1;
    while k < |q|
      invariant 1 <= k <= |q| && offset <= size && AllWellFormed(q[..k])
      invariant buf[..offset] == Assembled(q[..k])
    {
      AssembledStep(q, k);
      var f := q[k];
      if offset + FragLen(f) > size {
        return buf, offset, false;
      }
      var fragLen := CopyBody(buf, offset, f);
      offset := offset + fragLen;
      k := k + 1;
    }
    assert q[..|q|] == q;
    fits := true;
  }

  lemma AssembledParts(q: seq<Frag>)
    requires q != [] && AllWellFormed(q)
    ensures Total(q[0]) <= |q[0].data| && AllWellFormed(q[..1]) && AllWellFormed(q[1..])
    ensures Assembled(q[..1]) == q[0].data[..Total(q[0])]
    ensures |Assembled(q)| == Total(q[0]) + Sum(q[1..])
  {
    assert q[..1] == [q[0]] && [q[0]][1..] == [];
    BodiesLength(q[1..]);
  }

  /** One more fragment. */
  lemma AssembledStep(q: seq<Frag>, k: nat)
    requires AllWellFormed(q) && 0 < k < |q| && AllWellFormed(q[..k])
    ensures WellFormed(q[k]) && AllWellFormed(q[..k + 1])
    ensures Assembled(q[..k + 1]) == Assembled(q[..k]) + Body(q[k]) && |Body(q[k])| == FragLen(q[k])
    ensures |Assembled(q[..k])| + FragLen(q[k]) <= |Assembled(q)|
  {
    var rest := q[1..];
    assert q[..k][1..] == rest[..k - 1] && q[..k + 1][1..] == rest[..k];
    SumAppend(rest, k - 1);
    BodiesLength(rest[..k - 1]);
    BodiesLength(rest);
    Associate(q[0].data[..Total(q[0])], Bodies(rest[..k - 1]), Body(q[k]));
  }

  lemma Associate(a: seq<Byte>, b: seq<Byte>, c: seq<Byte>)
    ensures (a + b) + c == a + (b + c)
  {
  }

  /** One turn of the loop: the body of a later fragment goes to `offset`. */
  method CopyBody(buf: array<Byte>, offset: nat, f: Frag) returns (fragLen: nat)
    requires WellFormed(f) && offset + FragLen(f) <= buf.Length
    modifies buf
    ensures fragLen == FragLen(f) && buf[..offset + fragLen] == old(buf[..offset]) + Body(f)
  {
    var fragOffset;
    if f.snap {
      fragLen, fragOffset := f.msduLen - ETH_HLEN, f.msduOffset + ETH_HLEN;
    } else {
      fragLen, fragOffset := f.msduLen - 2 * ETH_ALEN, f.msduOffset + 2 * ETH_ALEN;
    }
    Copy(buf, offset, f.data, fragOffset, fragLen);
  }

  /** memcpy */
  method Copy(dst: array<Byte>, at: nat, src: seq<Byte>, from: nat, n: nat)
    requires at + n <= dst.Length && from + n <= |src|
    modifies dst
    ensures dst[..at + n] == old(dst[..at]) + src[from..from + n]
    ensures dst[at + n..] == old(dst[at + n..])
  {
    forall i | 0 <= i < n {
      dst[at + i] := src[from + i];
    }
  }

  /** What ends the MSDU fits the buffer that the node's count allocates. */
  predicate CopyFits(nodes: seq<Node>, f: Frag)
    requires QueuesOk(nodes) && WellFormed(f)
  {
    f.num > 0 && !f.more && Continues(nodes, f) ==>
      var i := Find(nodes, f.sta, f.tid);
      QueueAt(nodes, i);
      var n := Extended(nodes[i], f);
      Total(n.queue[0]) + Sum(n.queue[1..]) <= n.msduLen
  }

  lemma QueueAt(nodes: seq<Node>, i: nat)
    requires QueuesOk(nodes) && i < |nodes|
    ensures AllWellFormed(nodes[i].queue)
  {
    assert nodes[i] in nodes;
  }

  /** Only a queue that a stray continuation opened can fail to: with fragment 0 there is always room. */
  lemma HeadMakesRoom(nodes: seq<Node>, f: Frag)
    requires AllSequenced(nodes) && QueuesOk(nodes) && Receivable(nodes, f) && f.num > 0 && Continues(nodes, f)
    requires var n := nodes[Find(nodes, f.sta, f.tid)]; Open(n) && n.queue[0].num == 0
    ensures CopyFits(nodes, f)
  {
    FindIsFirst(nodes, f.sta, f.tid);
    ExtendSequenced(nodes[Find(nodes, f.sta, f.tid)], f);
  }

  class DefragEntry {
    var nodes: seq<Node>  // head of the list first

    ghost predicate Valid()
      reads this
    {
      |nodes| == MAX_DEFRAG_NUM && AllSequenced(nodes) && QueuesOk(nodes)
    }

    /** sprdwl_defrag_init */
    constructor ()
      ensures Valid() && nodes == Fresh() && Good(nodes)
      ensures nodes == [Node(0, 0, 0, 0, 0, []), Node(0, 0, 0, 0, 0, []), Node(0, 0, 0, 0, 0, [])]
    {
      nodes := Fresh();
      FreshGood();
      FreshSequenced();
    }

    /** The list walk that find_defrag_node and init_first_defrag_node share. */
    method Lookup(sta: nat, tid: nat) returns (i: nat)
      ensures i == Find(nodes, sta, tid)
    {
      i := 0;
      while i < |nodes|
        invariant i <= |nodes|
        invariant Find(nodes, sta, tid) == i + Find(nodes[i..], sta, tid)
      {
        assert nodes[i..][1..] == nodes[i + 1..];
        if nodes[i].sta == sta && nodes[i].tid == tid {
          return;
        }
        i := i + 1;
      }
    }

    /** init_first_defrag_node, the queueing of the fragment included. */
    method StartMsdu(f: Frag)
      requires Valid() && Receivable(nodes, f) && f.num == 0
      modifies this
      ensures Valid() && nodes == Process(old(nodes), f, true).nodes
    {
      hide AllSequenced, QueuesOk;
      StepSequenced(nodes, f, true);
      ProcessQueues(nodes, f, true);
      var i := Lookup(f.sta, f.tid);
      if i < |nodes| {
        if Leq(f.seqNum, nodes[i].seqNum) {
          return;
        }
      } else {
        i := |nodes| - 1;
      }
      var n := Node(f.sta, f.tid, f.seqNum, f.num, Hdr(f) + f.msduOffset, [f]);
      n := n.(msduLen := n.msduLen + (f.msduLen - Hdr(f)));
      nodes := [n] + nodes[..i] + nodes[i + 1..];
    }

    /** find_defrag_node and the rest of defrag_single_data_process for a later fragment. The copy
        leaves the buffer, if there is one, exactly when the queue does not fit the node's count. */
    method ContinueMsdu(f: Frag, memory: bool) returns (out: Option<Out>, overrun: bool)
      requires Valid() && Receivable(nodes, f) && f.num > 0
      modifies this
      ensures Valid() && nodes == Process(old(nodes), f, memory).nodes
      ensures overrun <==> memory && !CopyFits(old(nodes), f)
      ensures out == if overrun then None else Process(old(nodes), f, memory).out
    {
      hide AllSequenced, QueuesOk, Assembled, Sum;
      StepSequenced(nodes, f, memory);
      ProcessQueues(nodes, f, memory);
      out, overrun := None, false;
      var i := Lookup(f.sta, f.tid);
      if i < |nodes| && nodes[i].seqNum == f.seqNum && nodes[i].last + 1 == f.num {
        QueueAt(nodes, i);
        var n := nodes[i].(last := f.num, queue := nodes[i].queue + [f]);
        n := n.(msduLen := n.msduLen + (f.msduLen - Hdr(f)));
        if f.more {
          nodes := nodes[i := n];
        } else {
          if memory {
            var first := n.queue[0];
            var buf, used, fits := Reassemble(n.queue, n.msduLen);
            overrun := !fits;
            if fits {
              out := Some(Out(first, (n.msduLen - first.msduOffset) % 0x1_0000, n.msduLen, buf[..used], n.queue));
            }
          }
          nodes := nodes[..i] + nodes[i + 1..] + [n.(queue := [])];
        }
      }
    }

    /** defrag_data_process: an unfragmented MSDU passes through untouched. */
    method DefragDataProcess(f: Frag, memory: bool) returns (d: Delivery)
      requires Valid() && (f.num != 0 || f.more ==> Receivable(nodes, f))
      modifies this
      ensures Valid()
      ensures if f.num == 0 && !f.more then d == Whole(f) && nodes == old(nodes)
              else
                var r := Process(old(nodes), f, memory);
                && nodes == r.nodes
                && d == if memory && !CopyFits(old(nodes), f) then Overrun
                        else if r.out.Some? then Reassembled(r.out.value) else Nothing
    {
      if f.num == 0 && !f.more {
        return Whole(f);
      }
      d := Nothing;
      if f.num != 0 {
        var out, overrun := ContinueMsdu(f, memory);
        if overrun {
          d := Overrun;
        } else if out.Some? {
          d := Reassembled(out.value);
        }
      } else {
        StartMsdu(f);
      }
    }
  }
}
