/** The CRC that guards the INI download (cmdevt.c): a nibble table for the reflected polynomial
    0xA001 of section 6.2.2 of MODBUS over Serial Line, initial value 0xFFFF. */
module Crc {

  type Word = bv16

  const POLYNOMIAL: Word := 0xA001

  /** A byte of the message, widened as C widens it before the exclusive or. */
  type Byte = b: bv16 | b < 256 witness 0

  // The word operations have names so that proofs about words need not look at bits.

  function Xor(a: Word, b: Word): Word {
    a ^ b
  }

  function Low(x: Word): Word {
    x & 15
  }

  function Down(x: Word): Word {
    x >> 4
  }

  function Half(x: Word): Word {
    x >> 1
  }

  predicate Odd(x: Word) {
    x & 1 == 1
  }

  /** CRC_table */
  function Table(i: Word): Word {
    if i == 0 then 0x0000 else if i == 1 then 0xCC01 else if i == 2 then 0xD801 else if i == 3 then 0x1400
    else if i == 4 then 0xF001 else if i == 5 then 0x3C00 else if i == 6 then 0x2800 else if i == 7 then 0xE401
    else if i == 8 then 0xA001 else if i == 9 then 0x6C00 else if i == 10 then 0x7800 else if i == 11 then 0xB401
    else if i == 12 then 0x5000 else if i == 13 then 0x9C01 else if i == 14 then 0x8801 else 0x4400
  }

  // ----- the definition: one bit at a time

  function BitStep(x: Word): Word {
    if Odd(x) then Xor(Half(x), POLYNOMIAL) else Half(x)
  }

  function Shift4(x: Word): Word {
    BitStep(BitStep(BitStep(BitStep(x))))
  }

  function Shift8(x: Word): Word {
    Shift4(Shift4(x))
  }

  /** The register after a message, starting from `crc`. */
  function Bitwise(crc: Word, msg: seq<Byte>): Word
    decreases |msg|
  {
    if msg == [] then crc else Bitwise(Shift8(Xor(crc, msg[0])), msg[1..])
  }

  // ----- facts about words

  lemma XorAssoc(a: Word, b: Word, c: Word)
    ensures Xor(a, Xor(b, c)) == Xor(Xor(a, b), c)
  {
  }

  lemma XorComm(a: Word, b: Word)
    ensures Xor(a, b) == Xor(b, a)
  {
  }

  lemma XorSelf(a: Word)
    ensures Xor(a, a) == 0 && Xor(a, 0) == a
  {
  }

  lemma XorSwap(p: Word, q: Word, k: Word)
    ensures Xor(Xor(p, k), q) == Xor(Xor(p, q), k)
  {
    hide Xor;
    XorAssoc(p, k, q);
    XorComm(k, q);
    XorAssoc(p, q, k);
  }

  lemma XorCommon(p: Word, q: Word, k: Word)
    ensures Xor(Xor(p, k), Xor(q, k)) == Xor(p, q)
  {
    hide Xor;
    XorAssoc(Xor(p, k), q, k);
    XorSwap(p, q, k);
    XorAssoc(Xor(p, q), k, k);
    XorSelf(k);
    XorSelf(Xor(p, q));
  }

  lemma HalfXor(x: Word, y: Word)
    ensures Half(Xor(x, y)) == Xor(Half(x), Half(y))
  {
  }

  lemma OddXor(x: Word, y: Word)
    ensures Odd(Xor(x, y)) <==> Odd(x) != Odd(y)
  {
  }

  lemma BitIsLinear(x: Word, y: Word)
    ensures BitStep(Xor(x, y)) == Xor(BitStep(x), BitStep(y))
  {
    hide Xor, Half, Odd;
    HalfXor(x, y);
    OddXor(x, y);
    XorCommon(Half(x), Half(y), POLYNOMIAL);
    XorSwap(Half(x), Half(y), POLYNOMIAL);
    XorAssoc(Half(x), Half(y), POLYNOMIAL);
  }

  lemma Shift4IsLinear(x: Word, y: Word)
    ensures Shift4(Xor(x, y)) == Xor(Shift4(x), Shift4(y))
  {
    hide BitStep, Xor;
    BitIsLinear(x, y);
    BitIsLinear(BitStep(x), BitStep(y));
    BitIsLinear(BitStep(BitStep(x)), BitStep(BitStep(y)));
    BitIsLinear(BitStep(BitStep(BitStep(x))), BitStep(BitStep(BitStep(y))));
  }

  lemma Shift8IsLinear(x: Word, y: Word)
    ensures Shift8(Xor(x, y)) == Xor(Shift8(x), Shift8(y))
  {
    hide Shift4, Xor;
    Shift4IsLinear(x, y);
    Shift4IsLinear(Shift4(x), Shift4(y));
  }

  // ----- table and definition agree

  /** The table holds the four-bit shifts of its indices. */
  lemma TableEntry(i: Word)
    requires i < 16
    ensures Shift4(i) == Table(i)
  {
    assert i == 0 || i == 1 || i == 2 || i == 3 || i == 4 || i == 5 || i == 6 || i == 7 ||
           i == 8 || i == 9 || i == 10 || i == 11 || i == 12 || i == 13 || i == 14 || i == 15;
  }

  /** Bits above the lowest four just move down. */
  lemma HighBitsMove(h: Word)
    requires h & 15 == 0
    ensures Shift4(h) == Down(h)
  {
    assert h & 1 == 0 && (h >> 1) & 1 == 0 && ((h >> 1) >> 1) & 1 == 0 && (((h >> 1) >> 1) >> 1) & 1 == 0;
    assert (((h >> 1) >> 1) >> 1) >> 1 == h >> 4;
  }

  lemma Halves(x: Word) returns (h: Word)
    ensures x == Xor(Low(x), h) && h & 15 == 0 && Down(h) == Down(x) && Low(x) < 16
  {
    h := x & 0xFFF0;
  }

  lemma TableIsShift(x: Word)
    ensures Shift4(x) == Xor(Table(Low(x)), Down(x))
  {
    hide Shift4, Table, Xor, Low, Down;
    var h := Halves(x);
    Shift4IsLinear(Low(x), h);
    TableEntry(Low(x));
    HighBitsMove(h);
  }

  lemma DownXor(x: Word, y: Word)
    ensures Down(Xor(x, y)) == Xor(Down(x), Down(y))
  {
  }

  lemma HighNibble(c: Word, ch: Byte)
    ensures Down(Xor(c, Down(ch))) == Down(c)
  {
    assert ch >> 4 < 16 && (ch >> 4) >> 4 == 0;
    assert (c ^ (ch >> 4)) >> 4 == (c >> 4) ^ ((ch >> 4) >> 4);
  }

  /** The two table lookups that CRC16 makes for one byte. */
  function ByteStep(crc: Word, ch: Byte): Word {
    var c := Xor(Table(Low(Xor(ch, crc))), Down(crc));
    Xor(Table(Low(Xor(Down(ch), c))), Down(c))
  }

  lemma ByteStepIsShift8(crc: Word, ch: Byte)
    ensures ByteStep(crc, ch) == Shift8(Xor(crc, ch))
  {
    hide Shift4, Table, Xor, Low, Down;
    var x := Xor(ch, crc);
    var t := Table(Low(x));
    var c := Xor(t, Down(crc));
    XorComm(ch, crc);
    DownXor(crc, ch);
    XorAssoc(t, Down(crc), Down(ch));
    XorComm(Down(ch), c);
    TableIsShift(x);
    assert Shift4(x) == Xor(c, Down(ch));
    TableIsShift(Xor(c, Down(ch)));
    HighNibble(c, ch);
  }

  /** CRC16 computes the bit-by-bit CRC of any message its length parameter can describe. */
  method Crc16(buf: seq<Byte>) returns (crc: Word)
    requires |buf| < 0x1_0000
    ensures crc == Bitwise(0xFFFF, buf)
  {
    hide Shift8, Table, Xor, Low, Down;
    crc := 0xFFFF;
    var i := 0;
    while i < |buf|
      invariant i <= |buf|
      invariant Bitwise(crc, buf[i..]) == Bitwise(0xFFFF, buf)
    {
      var ch := buf[i];
      ByteStepIsShift8(crc, ch);
      assert buf[i..][0] == ch && buf[i..][1..] == buf[i + 1..];
      crc := Xor(Table(Low(Xor(ch, crc))), Down(crc));
      crc := Xor(Table(Low(Xor(Down(ch), crc))), Down(crc));
      i := i + 1;
    }
  }

  // ----- error detection

  lemma BitIsInjective(x: Word, y: Word)
    requires BitStep(x) == BitStep(y)
    ensures x == y
  {
  }

  lemma XorCancels(c: Word, d: Word, m: Word)
    requires Xor(c, m) == Xor(d, m)
    ensures c == d
  {
  }

  function BitIn(b: bool): Word {
    if b then 1 else 0
  }

  /** The register after a stream of bits. */
  function Feed(crc: Word, bits: seq<bool>): Word
    decreases |bits|
  {
    if bits == [] then crc else Feed(BitStep(Xor(crc, BitIn(bits[0]))), bits[1..])
  }

  /** The k low bits of a word, lowest first: the order in which the reflected CRC sees them. */
  function Bits(x: Word, k: nat): (bits: seq<bool>)
    ensures |bits| == k
  {
    if k == 0 then [] else [Odd(x)] + Bits(Half(x), k - 1)
  }

  function AllBits(msg: seq<Byte>): (bits: seq<bool>)
    ensures |bits| == 8 * |msg|
  {
    if msg == [] then [] else Bits(msg[0], 8) + AllBits(msg[1..])
  }

  // ----- bytes are bits

  function Steps(x: Word, k: nat): Word
    decreases k
  {
    if k == 0 then x else Steps(BitStep(x), k - 1)
  }

  /** What is left above the k low bits. */
  function Rest(x: Word, k: nat): Word {
    if k == 0 then x else Rest(Half(x), k - 1)
  }

  lemma LowBitFirst(c: Word, x: Word)
    ensures BitStep(Xor(c, x)) == Xor(BitStep(Xor(c, BitIn(Odd(x)))), Half(x))
  {
    hide Xor, Half, Odd;
    var b := BitIn(Odd(x));
    XorCommon(c, x, b);
    BitIsLinear(Xor(c, b), Xor(x, b));
    LowBitGone(x);
  }

  lemma LowBitGone(x: Word)
    ensures !Odd(Xor(x, BitIn(Odd(x)))) && Half(Xor(x, BitIn(Odd(x)))) == Half(x)
  {
  }

  lemma {:induction false} WordIsBits(c: Word, x: Word, k: nat)
    ensures Steps(Xor(c, x), k) == Xor(Feed(c, Bits(x, k)), Rest(x, k))
    decreases k
  {
    hide BitStep, Xor, Odd, Half;
    if k > 0 {
      LowBitFirst(c, x);
      WordIsBits(BitStep(Xor(c, BitIn(Odd(x)))), Half(x), k - 1);
      assert Bits(x, k)[1..] == Bits(Half(x), k - 1);
    }
  }

  lemma ByteIsBits(c: Word, x: Byte)
    ensures Shift8(Xor(c, x)) == Feed(c, Bits(x, 8))
  {
    EightSteps(Xor(c, x));
    EightHalves(x);
    hide BitStep, Xor, Shift8, Rest, Feed;
    WordIsBits(c, x, 8);
    XorSelf(Feed(c, Bits(x, 8)));
  }

  lemma EightSteps(x: Word)
    ensures Steps(x, 8) == Shift8(x)
  {
    hide BitStep;
    FourSteps(x, 4);
    FourSteps(Shift4(x), 0);
  }

  lemma FourSteps(x: Word, k: nat)
    ensures Steps(x, k + 4) == Steps(Shift4(x), k)
  {
    hide BitStep;
    var x1 := BitStep(x);
    var x2 := BitStep(x1);
    var x3 := BitStep(x2);
    assert Steps(x, k + 4) == Steps(x1, k + 3) && Steps(x2, k + 2) == Steps(x3, k + 1);
  }

  lemma EightHalves(x: Byte)
    ensures Rest(x, 8) == 0
  {
    assert Rest(x, 8) == Rest(x >> 1, 7) == Rest((x >> 1) >> 1, 6) == Rest(((x >> 1) >> 1) >> 1, 5);
    var y := ((x >> 1) >> 1) >> 1;
    assert Rest(y, 5) == Rest(y >> 1, 4) == Rest((y >> 1) >> 1, 3);
    var z := (y >> 1) >> 1;
    assert Rest(z, 3) == Rest(z >> 1, 2) == Rest((z >> 1) >> 1, 1) == ((z >> 1) >> 1) >> 1;
  }

  lemma {:induction false} FeedAppend(crc: Word, a: seq<bool>, b: seq<bool>)
    ensures Feed(crc, a + b) == Feed(Feed(crc, a), b)
    decreases |a|
  {
    hide BitStep, Xor;
    if a == [] {
      assert a + b == b;
    } else {
      assert (a + b)[1..] == a[1..] + b;
      FeedAppend(BitStep(Xor(crc, BitIn(a[0]))), a[1..], b);
    }
  }

  /** The CRC of a message is that of its bits. */
  lemma {:induction false} BytesAreBits(crc: Word, msg: seq<Byte>)
    ensures Bitwise(crc, msg) == Feed(crc, AllBits(msg))
    decreases |msg|
  {
    hide Shift8, Xor, Feed, Bits;
    if msg == [] {
      assert Feed(crc, []) == crc by { EmptyFeed(crc); }
    } else {
      ByteIsBits(crc, msg[0]);
      FeedAppend(crc, Bits(msg[0], 8), AllBits(msg[1..]));
      BytesAreBits(Shift8(Xor(crc, msg[0])), msg[1..]);
    }
  }

  lemma EmptyFeed(crc: Word)
    ensures Feed(crc, []) == crc
  {
  }

  lemma {:induction false} BitsAreInjective(x: Word, y: Word, k: nat)
    requires Bits(x, k) == Bits(y, k) && Rest(x, k) == Rest(y, k)
    ensures x == y
    decreases k
  {
    if k > 0 {
      assert Bits(x, k)[0] == Bits(y, k)[0];
      assert Bits(x, k)[1..] == Bits(Half(x), k - 1) && Bits(y, k)[1..] == Bits(Half(y), k - 1);
      BitsAreInjective(Half(x), Half(y), k - 1);
    }
  }

  lemma {:induction false} AllBitsAreInjective(m: seq<Byte>, n: seq<Byte>)
    requires |m| == |n| && AllBits(m) == AllBits(n)
    ensures m == n
    decreases |m|
  {
    if m != [] {
      assert AllBits(m)[..8] == Bits(m[0], 8) && AllBits(n)[..8] == Bits(n[0], 8);
      assert AllBits(m)[8..] == AllBits(m[1..]) && AllBits(n)[8..] == AllBits(n[1..]);
      EightHalves(m[0]);
      EightHalves(n[0]);
      BitsAreInjective(m[0], n[0], 8);
      AllBitsAreInjective(m[1..], n[1..]);
    }
  }

  // ----- bursts

  /** Registers that differ still differ after the same bits, and equal ones stay equal. */
  lemma {:induction false} SameBitsKeepDifference(c: Word, d: Word, bits: seq<bool>)
    ensures Feed(c, bits) == Feed(d, bits) <==> c == d
    decreases |bits|
  {
    hide BitStep, Xor;
    if bits != [] {
      var b := BitIn(bits[0]);
      SameBitsKeepDifference(BitStep(Xor(c, b)), BitStep(Xor(d, b)), bits[1..]);
      if BitStep(Xor(c, b)) == BitStep(Xor(d, b)) {
        BitIsInjective(Xor(c, b), Xor(d, b));
        XorCancels(c, d, b);
      }
    }
  }

  function Differences(a: seq<bool>, b: seq<bool>): (e: seq<bool>)
    requires |a| == |b|
    ensures |e| == |a| && forall i :: 0 <= i < |a| ==> e[i] == (a[i] != b[i])
  {
    if a == [] then [] else [a[0] != b[0]] + Differences(a[1..], b[1..])
  }

  lemma BitDifference(c: Word, d: Word, x: bool, y: bool)
    ensures Xor(Xor(c, BitIn(x)), Xor(d, BitIn(y))) == Xor(Xor(c, d), BitIn(x != y))
  {
    hide Xor;
    XorSelf(c);
    XorSelf(d);
    XorSelf(Xor(c, d));
    XorCommon(c, d, BitIn(x));
    XorSwap(c, d, BitIn(x));
    XorAssoc(c, d, BitIn(y));
  }

  lemma {:induction false} FeedIsLinear(c: Word, d: Word, a: seq<bool>, b: seq<bool>)
    requires |a| == |b|
    ensures Xor(Feed(c, a), Feed(d, b)) == Feed(Xor(c, d), Differences(a, b))
    decreases |a|
  {
    hide BitStep, Xor;
    if a != [] {
      var x, y := Xor(c, BitIn(a[0])), Xor(d, BitIn(b[0]));
      BitDifference(c, d, a[0], b[0]);
      BitIsLinear(x, y);
      FeedIsLinear(BitStep(x), BitStep(y), a[1..], b[1..]);
      assert Differences(a, b)[1..] == Differences(a[1..], b[1..]);
    }
  }

  function Twice(x: Word): Word {
    x << 1
  }

  /** At most sixteen bits as a word, the first of them lowest. */
  function Value(e: seq<bool>): Word {
    if e == [] then 0 else Xor(Twice(Value(e[1..])), BitIn(e[0]))
  }

  function Power(k: nat): Word
    requires k < 16
  {
    if k == 0 then 0x0001 else if k == 1 then 0x0002 else if k == 2 then 0x0004 else if k == 3 then 0x0008
    else if k == 4 then 0x0010 else if k == 5 then 0x0020 else if k == 6 then 0x0040 else if k == 7 then 0x0080
    else if k == 8 then 0x0100 else if k == 9 then 0x0200 else if k == 10 then 0x0400 else if k == 11 then 0x0800
    else if k == 12 then 0x1000 else if k == 13 then 0x2000 else if k == 14 then 0x4000 else 0x8000
  }

  lemma TwiceBelow(v: Word, b: bool, k: nat)
    requires k < 15 && v < Power(k)
    ensures Xor(Twice(v), BitIn(b)) < Power(k + 1)
  {
  }

  lemma {:induction false} ValueBelow(e: seq<bool>)
    requires |e| < 16
    ensures Value(e) < Power(|e|)
  {
    hide Xor, Twice;
    if e != [] {
      ValueBelow(e[1..]);
      TwiceBelow(Value(e[1..]), e[0], |e| - 1);
    }
  }

  lemma {:induction false} PowerGrows(k: nat)
    requires k < 16
    ensures Power(k) <= 0x8000
  {
  }

  /** Below the top bit a register comes from its double. */
  lemma StepBack(d: Word, b: bool, v: Word)
    requires BitStep(Xor(d, BitIn(b))) == v < 0x8000
    ensures d == Xor(Twice(v), BitIn(b))
  {
    hide Xor, BitStep, Twice;
    ItsDouble(Xor(d, BitIn(b)));
    XorAssoc(d, BitIn(b), BitIn(b));
    XorSelf(BitIn(b));
    XorSelf(d);
  }

  lemma ItsDouble(x: Word)
    requires BitStep(x) < 0x8000
    ensures x == Twice(BitStep(x))
  {
    assert Half(x) < 0x8000;
    assert Odd(x) ==> Xor(Half(x), POLYNOMIAL) >= 0x8000;
  }

  /** At most sixteen bits bring the register to zero only if they are its own. */
  lemma {:induction false} OnlyItsOwnBits(d: Word, e: seq<bool>)
    requires |e| <= 16 && Feed(d, e) == 0
    ensures d == Value(e)
    decreases |e|
  {
    hide BitStep, Xor, Twice, Power;
    if e != [] {
      var d' := BitStep(Xor(d, BitIn(e[0])));
      OnlyItsOwnBits(d', e[1..]);
      ValueBelow(e[1..]);
      PowerGrows(|e| - 1);
      StepBack(d, e[0], d');
    }
  }

  lemma NoBits(v: Word, b: bool)
    requires v < 0x8000 && Xor(Twice(v), BitIn(b)) == 0
    ensures v == 0 && !b
  {
  }

  lemma {:induction false} ZeroValue(e: seq<bool>)
    requires |e| <= 16 && Value(e) == 0
    ensures forall i :: 0 <= i < |e| ==> !e[i]
  {
    hide Xor, Twice, Power;
    if e != [] {
      ValueBelow(e[1..]);
      PowerGrows(|e| - 1);
      NoBits(Value(e[1..]), e[0]);
      ZeroValue(e[1..]);
      assert forall i :: 1 <= i < |e| ==> e[i] == e[1..][i - 1];
    }
  }

  /** From the same register, two different streams of at most sixteen bits lead to different registers. */
  lemma ShortStreamsDiffer(c: Word, a: seq<bool>, b: seq<bool>)
    requires |a| == |b| <= 16
    ensures Feed(c, a) == Feed(c, b) <==> a == b
  {
    hide Xor, Feed, Value;
    if Feed(c, a) == Feed(c, b) {
      FeedIsLinear(c, c, a, b);
      XorSelf(Feed(c, a));
      XorSelf(c);
      OnlyItsOwnBits(0, Differences(a, b));
      ZeroValue(Differences(a, b));
    }
  }

  /** Every burst is detected: two messages of equal length whose bits differ within sixteen adjacent
      positions only, wherever those lie, share a CRC if and only if they are equal. */
  lemma BurstsAreDetected(m: seq<Byte>, n: seq<Byte>, at: nat)
    requires |m| == |n|
    requires forall i :: 0 <= i < 8 * |m| && !(at <= i < at + 16) ==> AllBits(m)[i] == AllBits(n)[i]
    ensures Bitwise(0xFFFF, m) == Bitwise(0xFFFF, n) <==> m == n
  {
    var x, y, len := AllBits(m), AllBits(n), 8 * |m|;
    var lo := if at < len then at else len;
    var hi := if at + 16 < len then at + 16 else len;
    BytesAreBits(0xFFFF, m);
    BytesAreBits(0xFFFF, n);
    BurstOfBits(0xFFFF, x, y, lo, hi);
    if x == y { AllBitsAreInjective(m, n); }
  }

  lemma BurstOfBits(crc: Word, x: seq<bool>, y: seq<bool>, lo: nat, hi: nat)
    requires lo <= hi <= |x| == |y| && hi - lo <= 16
    requires forall i :: 0 <= i < |x| && !(lo <= i < hi) ==> x[i] == y[i]
    ensures Feed(crc, x) == Feed(crc, y) <==> x == y
  {
    hide Feed;
    var c := Feed(crc, x[..lo]);
    assert x[..lo] == y[..lo] && x[hi..] == y[hi..];
    assert x == x[..lo] + (x[lo..hi] + x[hi..]) && y == y[..lo] + (y[lo..hi] + y[hi..]);
    FeedAppend(crc, x[..lo], x[lo..hi] + x[hi..]);
    FeedAppend(crc, y[..lo], y[lo..hi] + y[hi..]);
    FeedAppend(c, x[lo..hi], x[hi..]);
    FeedAppend(c, y[lo..hi], y[hi..]);
    SameBitsKeepDifference(Feed(c, x[lo..hi]), Feed(c, y[lo..hi]), x[hi..]);
    ShortStreamsDiffer(c, x[lo..hi], y[lo..hi]);
  }

  lemma {:induction false} AllBitsAppend(a: seq<Byte>, b: seq<Byte>)
    ensures AllBits(a + b) == AllBits(a) + AllBits(b)
    decreases |a|
  {
    hide Bits;
    if a == [] {
      assert a + b == b;
    } else {
      assert (a + b)[1..] == a[1..] + b;
      AllBitsAppend(a[1..], b);
    }
  }

  /** In particular, two messages of equal length that differ within two adjacent bytes, and only
      there, never share a CRC. */
  lemma AdjacentErrorsAreDetected(pre: seq<Byte>, a0: Byte, a1: Byte, b0: Byte, b1: Byte, post: seq<Byte>)
    ensures Bitwise(0xFFFF, pre + [a0, a1] + post) == Bitwise(0xFFFF, pre + [b0, b1] + post)
            <==> a0 == b0 && a1 == b1
  {
    var m, n := pre + [a0, a1] + post, pre + [b0, b1] + post;
    hide Bitwise, AllBits;
    AllBitsAppend(pre + [a0, a1], post);
    AllBitsAppend(pre + [b0, b1], post);
    AllBitsAppend(pre, [a0, a1]);
    AllBitsAppend(pre, [b0, b1]);
    BurstsAreDetected(m, n, 8 * |pre|);
    if m == n {
      assert m[|pre|] == a0 && n[|pre|] == b0 && m[|pre| + 1] == a1 && n[|pre| + 1] == b1;
    }
  }
}
