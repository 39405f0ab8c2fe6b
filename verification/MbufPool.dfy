/** The message-buffer pool of the WCN bus (wcn_bus.c): a free list threaded through the nodes. */

/** The pool as values: which nodes are free, in order, and which lists have been handed out. */
module PoolModel {
  import opened Common

  datatype Pool<T> = Pool(chain: seq<T>, out: seq<seq<T>>)

  /** Every node of the pool with its multiplicity, free or handed out. */
  function Everything<T>(p: Pool<T>): multiset<T> {
    multiset(p.chain) + multiset(Flatten(p.out))
  }

  /** Free and handed-out nodes are exactly `all`, none of them in two places. */
  ghost predicate Partition<T>(p: Pool<T>, all: set<T>) {
    Everything(p) == multiset(all)
  }

  ghost predicate NoDup<T>(s: seq<T>) {
    forall i, j :: 0 <= i < j < |s| ==> s[i] != s[j]
  }

  function Granted<T>(p: Pool<T>, num: int): nat {
    if num <= 0 then 0 else if num > |p.chain| then |p.chain| else num
  }

  /** buf_list_alloc: a prefix of the free list, at most as long as asked for. */
  function Alloc<T>(p: Pool<T>, num: int): Pool<T> {
    var k := Granted(p, num);
    if k == 0 then p else Pool(p.chain[k..], p.out + [p.chain[..k]])
  }

  /** buf_list_free of the i-th list handed out. */
  function Free<T>(p: Pool<T>, i: nat): Pool<T>
    requires i < |p.out|
  {
    Pool(p.out[i] + p.chain, p.out[..i] + p.out[i + 1..])
  }

  datatype Op = AllocOp(num: int) | FreeOp(i: nat)

  predicate Legal<T>(p: Pool<T>, op: Op) {
    op.FreeOp? ==> op.i < |p.out|
  }

  function Step<T>(p: Pool<T>, op: Op): Pool<T>
    requires Legal(p, op)
  {
    match op
    case AllocOp(num) => Alloc(p, num)
    case FreeOp(i) => Free(p, i)
  }

  predicate Runnable<T>(p: Pool<T>, ops: seq<Op>)
    decreases |ops|
  {
    ops == [] || (Legal(p, ops[0]) && Runnable(Step(p, ops[0]), ops[1..]))
  }

  function Run<T>(p: Pool<T>, ops: seq<Op>): Pool<T>
    requires Runnable(p, ops)
    decreases |ops|
  {
    if ops == [] then p else Run(Step(p, ops[0]), ops[1..])
  }

  lemma {:induction false} FlattenAppend<T>(a: seq<seq<T>>, b: seq<seq<T>>)
    ensures Flatten(a + b) == Flatten(a) + Flatten(b)
  {
    if a == [] {
      assert a + b == b;
    } else {
      assert (a + b)[1..] == a[1..] + b;
      FlattenAppend(a[1..], b);
    }
  }

  lemma AllocConserves<T>(p: Pool<T>, num: int)
    ensures Everything(Alloc(p, num)) == Everything(p)
  {
    var k := Granted(p, num);
    var l, rest := p.chain[..k], p.chain[k..];
    FlattenAppend(p.out, [l]);
    assert Flatten([l]) == l;
    assert p.chain == l + rest;
  }

  lemma FreeConserves<T>(p: Pool<T>, i: nat)
    requires i < |p.out|
    ensures Everything(Free(p, i)) == Everything(p)
  {
    var before, after := p.out[..i], p.out[i + 1..];
    FlattenAppend(before, [p.out[i]] + after);
    FlattenAppend(before, after);
    assert p.out == before + ([p.out[i]] + after);
    assert ([p.out[i]] + after)[1..] == after;
  }

  lemma StepPartition<T>(p: Pool<T>, op: Op, all: set<T>)
    requires Legal(p, op) && Partition(p, all)
    ensures Partition(Step(p, op), all)
  {
    match op
    case AllocOp(num) => AllocConserves(p, num);
    case FreeOp(i) => FreeConserves(p, i);
  }

  /** Over any run of allocations and frees the pool stays partitioned. */
  lemma {:induction false} RunPartition<T>(p: Pool<T>, ops: seq<Op>, all: set<T>)
    requires Runnable(p, ops) && Partition(p, all)
    ensures Partition(Run(p, ops), all)
    decreases |ops|
  {
    if ops != [] {
      StepPartition(p, ops[0], all);
      RunPartition(Step(p, ops[0]), ops[1..], all);
    }
  }

  /** In a partitioned pool no node occurs twice, whether free or handed out, and the sizes add up. */
  lemma PartitionMeansDisjoint<T>(p: Pool<T>, all: set<T>)
    requires Partition(p, all)
    ensures NoDup(p.chain) && NoDup(Flatten(p.out))
    ensures forall x :: x in p.chain ==> x !in Flatten(p.out)
    ensures forall x :: x in all ==> x in p.chain || x in Flatten(p.out)
    ensures forall x :: x in p.chain ==> x in all
    ensures forall x :: x in Flatten(p.out) ==> x in all
    ensures |p.chain| + |Flatten(p.out)| == |all|
  {
    var c, f := p.chain, Flatten(p.out);
    assert |multiset(c)| == |c| && |multiset(f)| == |f|;
    forall x | x in c ensures multiset(c)[x] == 1 && x !in f && x in all {
      assert x in multiset(c) && Everything(p)[x] == multiset(all)[x];
    }
    forall x | x in f ensures multiset(f)[x] == 1 && x in all {
      assert x in multiset(f) && Everything(p)[x] == multiset(all)[x];
    }
    forall x | x in all ensures x in c || x in f {
      assert Everything(p)[x] == multiset(all)[x];
      assert x in multiset(c) || x in multiset(f);
    }
    OnceOnly(c);
    OnceOnly(f);
    assert |Everything(p)| == |c| + |f|;
  }

  lemma OnceOnly<T>(s: seq<T>)
    requires forall x :: x in s ==> multiset(s)[x] <= 1
    ensures NoDup(s)
  {
    forall i, j | 0 <= i < j < |s|
      ensures s[i] != s[j]
    {
      assert s == s[..j] + s[j..];
      assert s[j..][0] == s[j] && s[..j][i] == s[i];
      assert multiset(s)[s[i]] == multiset(s[..j])[s[i]] + multiset(s[j..])[s[i]];
    }
  }

  /** The nodes of an allocation were free and in nobody's hands. */
  lemma AllocIsFresh<T>(p: Pool<T>, all: set<T>, num: int)
    requires Partition(p, all) && num > 0 && p.chain != []
    ensures var q := Alloc(p, num);
            && |q.out| == |p.out| + 1 && q.out[..|p.out|] == p.out
            && 0 < |q.out[|p.out|]| <= num
            && forall x :: x in q.out[|p.out|] ==> x !in Flatten(p.out) && x !in q.chain
  {
    PartitionMeansDisjoint(p, all);
    var k := Granted(p, num);
    forall x | x in p.chain[..k] ensures x in p.chain && x !in p.chain[k..] {
      var i :| 0 <= i < k && p.chain[i] == x;
      assert forall j :: 0 <= j < |p.chain[k..]| ==> p.chain[k..][j] == p.chain[k + j] != x;
    }
  }

  /** A request is met in full whenever the pool has that many nodes, and with all it has otherwise; the
      nodes are the first ones of the free list. A request for nothing, or to an empty pool, changes
      nothing. */
  lemma AllocTakesFirst<T>(p: Pool<T>, num: int)
    ensures var q := Alloc(p, num);
            if num <= 0 || p.chain == [] then q == p
            else
              && |q.out| == |p.out| + 1 && q.out[..|p.out|] == p.out
              && q.out[|p.out|] + q.chain == p.chain
              && |q.out[|p.out|]| == (if num <= |p.chain| then num else |p.chain|)
  {
    var k := Granted(p, num);
    assert p.chain[..k] + p.chain[k..] == p.chain;
  }

  /** A list that is freed goes in front of the free nodes, in its own order, and the other lists are as
      they were. */
  lemma FreeGoesInFront<T>(p: Pool<T>, i: nat)
    requires i < |p.out|
    ensures var q := Free(p, i);
            && q.chain[..|p.out[i]|] == p.out[i] && q.chain[|p.out[i]|..] == p.chain
            && |q.out| == |p.out| - 1
            && (forall j :: 0 <= j < i ==> q.out[j] == p.out[j])
            && (forall j :: i < j < |p.out| ==> q.out[j - 1] == p.out[j])
  {
  }

  /** Freeing what was just allocated restores the pool, order included. */
  lemma FreeUndoesAlloc<T>(p: Pool<T>, num: int)
    requires num > 0 && p.chain != []
    ensures Free(Alloc(p, num), |p.out|) == p
  {
    var k := Granted(p, num);
    assert p.chain[..k] + p.chain[k..] == p.chain;
    assert (p.out + [p.chain[..k]])[..|p.out|] == p.out;
  }
}

module MbufPool {
  import opened Common
  import opened PoolModel

  class Mbuf {
    var next: Mbuf?
    var seqNo: nat
    constructor ()
      ensures fresh(this)
    {
      next, seqNo := null, 0;
    }
  }

  /** The nodes of l are chained in order; the last one points to `end`. */
  ghost predicate Linked(l: seq<Mbuf>, end: Mbuf?)
    reads l
  {
    && (forall i :: 0 <= i < |l| - 1 ==> l[i].next == l[i + 1])
    && (l != [] ==> l[|l| - 1].next == end)
  }

  /** A list as its head and tail pointers describe it. */
  ghost predicate Spans(l: seq<Mbuf>, head: Mbuf?, tail: Mbuf?)
    reads l
  {
    l != [] && Linked(l, null) && head == l[0] && tail == l[|l| - 1]
  }

  function First(l: seq<Mbuf>, end: Mbuf?): Mbuf? {
    if l == [] then end else l[0]
  }

  /** Points the last node of l elsewhere; the other list is not disturbed. */
  method Redirect(ghost l: seq<Mbuf>, ghost other: seq<Mbuf>, tail: Mbuf, end: Mbuf?)
    requires l != [] && tail == l[|l| - 1] && Linked(l, tail.next) && Linked(other, null)
    requires NoDup(l + other)
    modifies tail
    ensures Linked(l, end) && Linked(other, null)
  {
    assert forall k :: 0 <= k < |l| ==> (l + other)[k] == l[k];
    assert forall k :: 0 <= k < |other| ==> (l + other)[|l| + k] == other[k];
    tail.next := end;
  }

  class BufPool {
    const size: nat
    var head: Mbuf?
    var free: nat
    ghost var model: Pool<Mbuf>
    const all: set<Mbuf>      // the nodes of the pool's block of memory

    /** The free list is an acyclic chain of exactly `free` nodes, and free and handed-out nodes
        partition the pool. */
    ghost predicate Valid()
      reads this, model.chain
    {
      && head == First(model.chain, null) && Linked(model.chain, null)
      && free == |model.chain|
      && Partition(model, all) && |all| == size
    }

    /** buf_pool_init; the nodes of one zeroed block of memory are given as `mem`. */
    constructor (mem: seq<Mbuf>)
      requires mem != [] && NoDup(mem)
      modifies mem
      ensures Valid() && size == |mem| && model == Pool(mem, []) && all == (set m | m in mem)
    {
      size := |mem|;
      head := mem[0];
      free := |mem|;
      model := Pool(mem, []);
      all := set m | m in mem;
      new;
      var i := 0;
      while i < |mem| - 1
        invariant 0 <= i <= |mem| - 1
        invariant forall k :: 0 <= k < i ==> mem[k].next == mem[k + 1]
        modifies mem
      {
        mem[i].seqNo := i;
        mem[i].next := mem[i + 1];
        i := i + 1;
      }
      mem[i].seqNo := i;
      mem[i].next := null;
      DistinctIsPartition(mem);
    }

    /** The self-check from one node on: k more nodes of the pool's own memory, and then the end. */
    ghost predicate ChecksFrom(m: Mbuf?, k: nat)
      reads all
    {
      if k == 0 then m == null else m != null && m in all && ChecksFrom(m.next, k - 1)
    }

    /** buf_pool_check is silent if and only if the chain from the head has `free` nodes, all of them the
        pool's own, and ends after them; on a valid pool it is. */
    method BufPoolCheck() returns (clean: bool)
      ensures clean <==> ChecksFrom(head, free)
      ensures clean <==> exists l: seq<Mbuf> ::
                |l| == free && Linked(l, null) && head == First(l, null) && forall m :: m in l ==> m in all
      ensures Valid() ==> clean
    {
      if Valid() { ValidChecks(); }
      ChecksExactly(head, free);
      assert Valid() ==> ChecksFrom(head, free);
      hide ChecksFrom, Valid;
      var i, mbuf := 0, head;
      while i < free
        invariant i <= free && (ChecksFrom(head, free) <==> ChecksFrom(mbuf, free - i))
      {
        ChecksTurn(mbuf, free - i);
        if mbuf == null || mbuf !in all {
          ChecksExactly(head, free);
          return false;
        }
        mbuf := mbuf.next;
        i := i + 1;
      }
      ChecksTurn(mbuf, 0);
      ChecksExactly(head, free);
      return mbuf == null;
    }

    lemma ChecksTurn(m: Mbuf?, k: nat)
      ensures ChecksFrom(m, k) <==> if k == 0 then m == null else m != null && m in all && ChecksFrom(m.next, k - 1)
    {
    }

    lemma {:induction false} ChecksExactly(m: Mbuf?, k: nat)
      ensures ChecksFrom(m, k) <==> exists l: seq<Mbuf> ::
                |l| == k && Linked(l, null) && m == First(l, null) && forall x :: x in l ==> x in all
      decreases k
    {
      if k == 0 {
        assert Linked([], null) && (m == null ==> m == First([], null));
      } else {
        if ChecksFrom(m, k) {
          ChecksExactly(m.next, k - 1);
          var l: seq<Mbuf> :| |l| == k - 1 && Linked(l, null) && m.next == First(l, null)
                              && forall x :: x in l ==> x in all;
          LinkedCons(m, l);
          assert |[m] + l| == k && m == First([m] + l, null);
        }
        if l: seq<Mbuf> :| |l| == k && Linked(l, null) && m == First(l, null) && forall x :: x in l ==> x in all {
          LinkedRest(l);
          ChecksExactly(m.next, k - 1);
        }
      }
    }

    lemma ValidChecks()
      requires Valid()
      ensures exists l: seq<Mbuf> ::
                |l| == free && Linked(l, null) && head == First(l, null) && forall m :: m in l ==> m in all
    {
      PartitionMeansDisjoint(model, all);
    }

    /** buf_list_alloc. `freeSeen` is what the test before the lock read of `free`: when others have
        emptied the pool since, the call succeeds with an empty list. */
    method BufListAlloc(num: int, freeSeen: int) returns (rc: int, listHead: Mbuf?, listTail: Mbuf?, granted: nat)
      requires Valid()
      modifies this`head, this`free, this`model, model.chain
      ensures Valid()
      ensures rc == if num <= 0 || freeSeen <= 0 then -1 else 0
      ensures granted == if rc == 0 then Granted(old(model), num) else 0
      ensures model == if rc == 0 then Alloc(old(model), num) else old(model)
      ensures rc != 0 ==> head == old(head)
      ensures rc == 0 ==> (granted == 0 <==> old(free) == 0)
      ensures if granted == 0 then listHead == null && listTail == null
              else Spans(old(model.chain)[..granted], listHead, listTail)
    {
      hide Partition, Linked, NoDup, Spans;
      if num <= 0 || freeSeen <= 0 {
        return -1, null, null, 0;
      }
      granted := if num > free then free else num;
      listHead, listTail := Take(granted);
      rc := 0;
    }

    /** The locked part of buf_list_alloc. */
    method Take(num: nat) returns (listHead: Mbuf?, listTail: Mbuf?)
      requires Valid() && num <= free && (num == 0 ==> free == 0)
      modifies this`head, this`free, this`model, model.chain
      ensures Valid() && model == Alloc(old(model), num)
      ensures if num == 0 then listHead == null && listTail == null
              else Spans(old(model.chain)[..num], listHead, listTail)
    {
      hide Partition, Linked, NoDup;
      ghost var l, rest := model.chain[..num], model.chain[num..];
      assert model.chain == l + rest;
      var cur;
      listHead, listTail, cur := Walk(num);
      PartitionMeansDisjoint(model, all);
      StepPartition(model, AllocOp(num), all);
      LinkedSplit(model.chain, num);
      if listTail != null {
        Redirect(l, rest, listTail, null);
      }
      free := free - num;
      head := cur;
      model := Alloc(model, num);
    }

    /** The walk of buf_list_alloc over the nodes it is about to hand out. */
    method Walk(num: nat) returns (first: Mbuf?, last: Mbuf?, cur: Mbuf?)
      requires head == First(model.chain, null) && Linked(model.chain, null)
      requires num <= |model.chain|
      ensures first == First(model.chain, null)
      ensures last == if num == 0 then null else model.chain[num - 1]
      ensures cur == First(model.chain[num..], null)
    {
      ghost var chain := model.chain;
      var i := 0;
      cur, first, last := head, head, null;
      while i < num
        invariant 0 <= i <= num
        invariant cur == First(chain[i..], null)
        invariant last == if 0 < i == num then chain[num - 1] else null
      {
        if i == num - 1 {
          last := cur;
        }
        cur := cur.next;
        i := i + 1;
      }
    }

    /** buf_list_free of the i-th list handed out. Its last node may point anywhere; a list that
        does not come from the pool is not the pool's concern. */
    method BufListFree(listHead: Mbuf?, listTail: Mbuf?, num: int, ghost i: nat) returns (rc: int)
      requires Valid()
      requires listHead != null && listTail != null && num != 0 ==>
        && i < |model.out| && num == |model.out[i]|
        && Linked(model.out[i], listTail.next)
        && listHead == model.out[i][0] && listTail == model.out[i][num - 1]
      modifies this`head, this`free, this`model, listTail
      ensures Valid()
      ensures rc == if listHead == null || listTail == null || num == 0 then -1 else 0
      ensures model == if rc == 0 then Free(old(model), i) else old(model)
    {
      if listHead == null || listTail == null || num == 0 {
        return -1;
      }
      hide Partition, NoDup;
      ghost var l, chain := model.out[i], model.chain;
      StepPartition(model, FreeOp(i), all);
      NotFree(model, all, i);
      hide Linked;
      Redirect(l, chain, listTail, head);
      LinkedJoin(l, chain);
      head := listHead;
      free := free + num;
      model := Free(model, i);
      return 0;
    }
  }

  lemma LinkedCons(m: Mbuf, l: seq<Mbuf>)
    requires Linked(l, null) && m.next == First(l, null)
    ensures Linked([m] + l, null)
  {
  }

  lemma LinkedRest(l: seq<Mbuf>)
    requires l != [] && Linked(l, null)
    ensures Linked(l[1..], null) && l[0].next == First(l[1..], null)
  {
  }

  lemma LinkedSplit(l: seq<Mbuf>, k: nat)
    requires Linked(l, null) && k <= |l|
    ensures Linked(l[k..], null)
    ensures k > 0 ==> Linked(l[..k], l[k - 1].next) && l[k - 1].next == First(l[k..], null)
  {
  }

  lemma LinkedJoin(a: seq<Mbuf>, b: seq<Mbuf>)
    requires a != [] && Linked(a, First(b, null)) && Linked(b, null)
    ensures Linked(a + b, null)
  {
  }

  lemma {:induction false} DistinctOnce(mem: seq<Mbuf>)
    requires NoDup(mem)
    ensures multiset(mem) == multiset(set m | m in mem)
  {
    if mem != [] {
      var init, last := mem[..|mem| - 1], mem[|mem| - 1];
      DistinctOnce(init);
      assert mem == init + [last];
      assert (set m | m in mem) == (set m | m in init) + {last};
    }
  }

  lemma DistinctIsPartition(mem: seq<Mbuf>)
    requires NoDup(mem)
    ensures Partition(Pool(mem, []), set m | m in mem)
    ensures |set m | m in mem| == |mem|
  {
    DistinctOnce(mem);
    assert |multiset(mem)| == |mem|;
  }

  function Offset(lists: seq<seq<Mbuf>>, i: nat): nat
    requires i < |lists|
  {
    if i == 0 then 0 else |lists[0]| + Offset(lists[1..], i - 1)
  }

  lemma {:induction false} FlattenAt(lists: seq<seq<Mbuf>>, i: nat, j: nat)
    requires i < |lists| && j < |lists[i]|
    ensures Offset(lists, i) + j < |Flatten(lists)| && Flatten(lists)[Offset(lists, i) + j] == lists[i][j]
  {
    if i > 0 { FlattenAt(lists[1..], i - 1, j); }
  }

  /** No node of a handed-out list is free, and none occurs in it twice. */
  lemma NotFree(p: Pool<Mbuf>, all: set<Mbuf>, i: nat)
    requires Partition(p, all) && i < |p.out|
    ensures NoDup(p.out[i] + p.chain)
  {
    PartitionMeansDisjoint(p, all);
    forall j | 0 <= j < |p.out[i]|
      ensures p.out[i][j] !in p.chain
    {
      FlattenAt(p.out, i, j);
      assert p.out[i][j] in Flatten(p.out);
    }
    forall j, k | 0 <= j < k < |p.out[i]|
      ensures p.out[i][j] != p.out[i][k]
    {
      FlattenAt(p.out, i, j);
      FlattenAt(p.out, i, k);
    }
    assert forall k :: 0 <= k < |p.chain| ==> p.chain[k] in p.chain;
  }

  /** Freeing right after allocating leaves the free list as it was, nodes and links. */
  method AllocThenFree(pool: BufPool, num: int)
    requires pool.Valid() && num > 0 && pool.free > 0
    modifies pool, pool.model.chain
    ensures pool.Valid() && pool.model == old(pool.model)
  {
    FreeUndoesAlloc(pool.model, num);
    ghost var i := |pool.model.out|;
    var rc, h, t, n := pool.BufListAlloc(num, pool.free);
    rc := pool.BufListFree(h, t, n, i);
  }
}
