/** Twelve-bit sequence-number arithmetic of the receive path (rx_msg.h). */
module SeqNo {

  const SEQ_SPACE := 4096
  const HALF_SPACE := 2048

  type Seq12 = s: nat | s < SEQ_SPACE

  /** The twelve bits that the air interface carries of an unbounded number. */
  function Wrap(n: int): Seq12 {
    n % SEQ_SPACE
  }

  /** SEQNO_ADD */
  function Add(a: Seq12, b: int): Seq12 {
    (a + b) % SEQ_SPACE
  }

  /** SEQNO_SUB */
  function Sub(a: Seq12, b: int): Seq12 {
    (a - b) % SEQ_SPACE
  }

  /** seqno_leq: the two branches of the source, the second one settling the tie at distance 2048. */
  predicate Leq(a: Seq12, b: Seq12) {
    (a <= b && b - a < HALF_SPACE) || (a > b && a - b >= HALF_SPACE)
  }

  /** seqno_geq */
  predicate Geq(a: Seq12, b: Seq12) {
    Leq(b, a)
  }

  /** Two unbounded numbers whose order survives the reduction to twelve bits: they are less than
      2048 apart, or exactly 2048 apart and the later one happens to have the smaller residue. */
  predicate Unambiguous(m: int, n: int) {
    || -HALF_SPACE < n - m < HALF_SPACE
    || (n - m == HALF_SPACE && Wrap(m) > Wrap(n))
    || (m - n == HALF_SPACE && Wrap(m) < Wrap(n))
  }

  /** The number a receiver with window start `start` takes twelve bits for: the nearest one with
      these bits, the tie at distance 2048 decided as seqno_leq decides it. */
  function Unwrap(start: nat, s: Seq12): (n: nat)
    requires start >= HALF_SPACE
    ensures Wrap(n) == s && Unambiguous(start, n)
  {
    var ahead := Sub(s, Wrap(start));
    AheadWraps(start, s);
    if ahead < HALF_SPACE || (ahead == HALF_SPACE && Wrap(start) > s) then start + ahead
    else start + ahead - SEQ_SPACE
  }

  lemma AheadWraps(start: nat, s: Seq12)
    ensures var ahead := Sub(s, Wrap(start));
            Wrap(start + ahead) == s && Wrap(start + ahead - SEQ_SPACE) == s
    ensures Sub(s, Wrap(start)) == HALF_SPACE ==> Wrap(start) != s
  {
    var q := start / SEQ_SPACE;
    assert start == q * SEQ_SPACE + Wrap(start);
  }

  /** An unambiguous number is the one its twelve bits are taken for. */
  lemma UnwrapIsUnique(start: nat, n: nat)
    requires start >= HALF_SPACE && Unambiguous(start, n)
    ensures Unwrap(start, Wrap(n)) == n
  {
    var m := Unwrap(start, Wrap(n));
    assert (m - n) % SEQ_SPACE == 0 by {
      assert m == m / SEQ_SPACE * SEQ_SPACE + Wrap(n) && n == n / SEQ_SPACE * SEQ_SPACE + Wrap(n);
    }
  }

  /** Distinct sequence numbers are ordered one way and not the other, the tie at distance 2048 included. */
  lemma LeqIsTotalAndAntisymmetric(a: Seq12, b: Seq12)
    requires a != b
    ensures Leq(a, b) <==> !Leq(b, a)
    ensures Sub(b, a) == HALF_SPACE ==> (Leq(a, b) <==> a > b)
  {
  }

  /** Residues of numbers less than one space apart differ by their distance, or by its complement. */
  lemma WrapDistance(m: int, n: int)
    requires m <= n < m + SEQ_SPACE
    ensures Wrap(n) == Wrap(m) + (n - m) || Wrap(n) == Wrap(m) + (n - m) - SEQ_SPACE
    ensures Sub(Wrap(n), Wrap(m)) == n - m
  {
    var k := n - m;
    assert n % SEQ_SPACE == (m % SEQ_SPACE + k) % SEQ_SPACE;
  }

  lemma AddWraps(n: int, k: int)
    ensures Add(Wrap(n), k) == Wrap(n + k)
    ensures Sub(Wrap(n), k) == Wrap(n - k)
    ensures Wrap(Wrap(n)) == Wrap(n)
  {
    var q := n / SEQ_SPACE;
    assert n == q * SEQ_SPACE + Wrap(n);
  }

  lemma WrapNext(m: int, n: int)
    requires Wrap(m) == Wrap(n)
    ensures Wrap(m + 1) == Wrap(n + 1)
  {
    AddWraps(m, 1);
    AddWraps(n, 1);
  }

  /** seqno_leq decides the order of two unbounded numbers less than one space apart exactly when
      they are unambiguous. */
  lemma LeqDecidesOrder(m: int, n: int)
    requires -SEQ_SPACE < n - m < SEQ_SPACE
    ensures (Leq(Wrap(m), Wrap(n)) <==> m <= n) <==> Unambiguous(m, n)
  {
    if m <= n {
      WrapDistance(m, n);
    } else {
      WrapDistance(n, m);
    }
  }
}
