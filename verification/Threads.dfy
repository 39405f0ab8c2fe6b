/** Counting threads by where they are. */
module Threads {

  type Tid = nat

  /** The threads whose program counter satisfies p. */
  function Those<Pc>(pc: map<Tid, Pc>, p: Pc -> bool): set<Tid> {
    set t | t in pc && p(pc[t])
  }

  /** What one thread's move does to such a count. */
  lemma OneMoves<Pc>(pc: map<Tid, Pc>, t: Tid, next: Pc, p: Pc -> bool)
    requires t in pc
    ensures |Those(pc[t := next], p)| == |Those(pc, p)| - (if p(pc[t]) then 1 else 0) + (if p(next) then 1 else 0)
  {
    var rest := Those(pc, p) - {t};
    assert t in Those(pc, p) <==> p(pc[t]);
    assert Those(pc, p) == if p(pc[t]) then rest + {t} else rest;
    assert Those(pc[t := next], p) == if p(next) then rest + {t} else rest;
  }
}
