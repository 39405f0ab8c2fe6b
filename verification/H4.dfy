/** Bluetooth HCI packets out of an H4 byte stream that arrives in arbitrary SDIO blocks (hci.c). */
module H4 {
  import opened Common

  // Packet indicators of the UART transport (Bluetooth Core Specification, Vol 4 Part A section 2);
  // ISO data uses the next value.
  const ACL: Byte := 2
  const SCO: Byte := 3
  const EVENT: Byte := 4
  const ISO: Byte := 5

  /** sprd_hci_hdr_len; 0 for a byte that starts no packet. */
  function HdrLen(kind: Byte): nat {
    if kind == EVENT then 2
    else if kind == ACL then 4
    else if kind == SCO then 3
    else if kind == ISO then 4
    else 0
  }

  function Le16(lo: Byte, hi: Byte): nat {
    lo + 256 * hi
  }

  /** sprd_hci_payload_len: the length that a complete header announces. */
  function PayloadLen(kind: Byte, data: seq<Byte>): nat
    requires HdrLen(kind) != 0 && |data| >= HdrLen(kind)
  {
    if kind == EVENT then data[1]
    else if kind == ACL then Le16(data[2], data[3])
    else if kind == SCO then data[2]
    else Le16(data[2], data[3]) % 0x4000
  }

  datatype Frame = Frame(kind: Byte, data: seq<Byte>)

  /** Between blocks: nothing pending, or a packet of which some bytes are still missing. */
  datatype Rx = Idle | Partial(kind: Byte, data: seq<Byte>, want: nat)

  /** The receiver with what it has handed up and its counters. */
  datatype State = State(rx: Rx, frames: seq<Frame>, errRx: nat, byteRx: nat)

  ghost predicate Pending(rx: Rx) {
    rx.Partial? ==>
      && HdrLen(rx.kind) != 0
      && |rx.data| < rx.want
      && (|rx.data| < HdrLen(rx.kind) ==> rx.want == HdrLen(rx.kind))
      && (|rx.data| >= HdrLen(rx.kind) ==> rx.want == HdrLen(rx.kind) + PayloadLen(rx.kind, rx.data))
  }

  // ----- one iteration of the receive loop

  /** After n more bytes: the header may become complete and announce the payload, and the packet
      may become complete and is handed up. */
  function Extend(s: State, more: seq<Byte>): State
    requires Pending(s.rx) && s.rx.Partial? && |s.rx.data| + |more| <= s.rx.want
  {
    var data := s.rx.data + more;
    var hdr := HdrLen(s.rx.kind);
    var want := if |data| == hdr && s.rx.want == hdr then hdr + PayloadLen(s.rx.kind, data) else s.rx.want;
    if |data| == want then
      s.(rx := Idle, frames := s.frames + [Frame(s.rx.kind, data)], byteRx := s.byteRx + |data|)
    else
      s.(rx := s.rx.(data := data, want := want))
  }

  /** The type byte of a packet. */
  function Start(s: State, kind: Byte): State {
    if HdrLen(kind) == 0 then s.(errRx := s.errRx + 1)
    else s.(rx := Partial(kind, [], HdrLen(kind)))
  }

  /** sprd_hci_recv for one block: `room` is the tailroom of a fresh buffer, `failAt` holds the
      block offsets at which an allocation would fail. A failed allocation and a packet that does not
      fit both give up on the rest of the block. */
  function Receive(s: State, block: seq<Byte>, room: nat, failAt: set<nat>, at: nat): State
    requires Pending(s.rx) && at <= |block|
    decreases |block| - at, 1
  {
    if at == |block| then s
    else if s.rx.Partial? then Fill(s, block, room, failAt, at)
    else if HdrLen(block[at]) == 0 then Receive(Start(s, block[at]), block, room, failAt, at + 1)
    else if at in failAt then s.(errRx := s.errRx + 1)
    else Fill(Start(s, block[at]), block, room, failAt, at + 1)
  }

  /** The second half of the loop body: as much of the block as the packet still wants. */
  function Fill(s: State, block: seq<Byte>, room: nat, failAt: set<nat>, at: nat): State
    requires Pending(s.rx) && s.rx.Partial? && at <= |block|
    decreases |block| - at, if at < |block| then 0 else 2
  {
    var n := Min(|block| - at, s.rx.want - |s.rx.data|);
    if |s.rx.data| + n > room then
      s.(rx := Idle, errRx := s.errRx + 1)
    else
      ExtendPending(s, block[at..at + n]);
      Receive(Extend(s, block[at..at + n]), block, room, failAt, at + n)
  }

  function Min(a: nat, b: nat): nat {
    if a < b then a else b
  }

  lemma ExtendPending(s: State, more: seq<Byte>)
    requires Pending(s.rx) && s.rx.Partial? && |s.rx.data| + |more| <= s.rx.want
    ensures Pending(Extend(s, more).rx)
  {
  }

  // ----- the reference: one byte at a time

  function Feed1(s: State, b: Byte): State
    requires Pending(s.rx)
  {
    if s.rx.Idle? then Start(s, b) else Extend(s, [b])
  }

  function Feed(s: State, bytes: seq<Byte>): State
    requires Pending(s.rx)
    decreases |bytes|
  {
    if bytes == [] then s else
      if s.rx.Partial? then
        ExtendPending(s, [bytes[0]]);
        Feed(Feed1(s, bytes[0]), bytes[1..])
      else Feed(Feed1(s, bytes[0]), bytes[1..])
  }

  /** At no point of the stream does a packet outgrow its buffer. */
  ghost predicate Fits(s: State, bytes: seq<Byte>, room: nat)
    requires Pending(s.rx)
    decreases |bytes|
  {
    bytes == [] ||
    (Feed1Pending(s, bytes[0]);
     && (s.rx.Partial? ==> |s.rx.data| < room)
     && Fits(Feed1(s, bytes[0]), bytes[1..], room))
  }

  lemma Feed1Pending(s: State, b: Byte)
    requires Pending(s.rx)
    ensures Pending(Feed1(s, b).rx)
  {
    if s.rx.Partial? { ExtendPending(s, [b]); }
  }

  lemma {:induction false} FeedPending(s: State, bytes: seq<Byte>)
    requires Pending(s.rx)
    ensures Pending(Feed(s, bytes).rx)
    decreases |bytes|
  {
    if bytes != [] {
      Feed1Pending(s, bytes[0]);
      FeedPending(Feed1(s, bytes[0]), bytes[1..]);
    }
  }

  lemma {:induction false} FeedAppend(s: State, a: seq<Byte>, b: seq<Byte>)
    requires Pending(s.rx)
    ensures Pending(Feed(s, a).rx)
    ensures Feed(s, a + b) == Feed(Feed(s, a), b)
    decreases |a|
  {
    FeedPending(s, a);
    if a == [] {
      assert a + b == b;
    } else {
      Feed1Pending(s, a[0]);
      assert (a + b)[1..] == a[1..] + b;
      FeedAppend(Feed1(s, a[0]), a[1..], b);
    }
  }

  lemma {:induction false} FitsAppend(s: State, a: seq<Byte>, b: seq<Byte>, room: nat)
    requires Pending(s.rx) && Fits(s, a + b, room)
    ensures Pending(Feed(s, a).rx)
    ensures Fits(s, a, room) && Fits(Feed(s, a), b, room)
    decreases |a|
  {
    FeedPending(s, a);
    if a == [] {
      assert a + b == b;
    } else {
      assert (a + b)[1..] == a[1..] + b;
      Feed1Pending(s, a[0]);
      FitsAppend(Feed1(s, a[0]), a[1..], b, room);
    }
  }

  /** Taking several bytes of one packet at once is taking them one by one, and then they fit. */
  lemma {:induction false} ExtendIsFeed(s: State, more: seq<Byte>, room: nat)
    requires Pending(s.rx) && s.rx.Partial? && more != []
    requires |s.rx.data| + |more| <= s.rx.want
    ensures Extend(s, more) == Feed(s, more)
    ensures Fits(s, more, room) <==> |s.rx.data| + |more| <= room
    decreases |more|
  {
    var one, rest := more[..1], more[1..];
    var m := Extend(s, one);
    assert one == [more[0]] && m == Feed1(s, more[0]);
    ExtendPending(s, one);
    if rest == [] {
      assert more == one;
    } else {
      assert s.rx.data + more == (s.rx.data + one) + rest;
      assert m.rx.Partial? && m.rx.data == s.rx.data + one;
      ExtendIsFeed(m, rest, room);
      SplitHeader(s, one, rest);
    }
  }

  /** The header is recognised in the same place however the bytes of a packet are grouped. */
  lemma SplitHeader(s: State, one: seq<Byte>, rest: seq<Byte>)
    requires Pending(s.rx) && s.rx.Partial? && |one| == 1 && rest != []
    requires |s.rx.data| + 1 + |rest| <= s.rx.want
    requires Pending(Extend(s, one).rx) && Extend(s, one).rx.Partial?
    requires |s.rx.data| + 1 + |rest| <= Extend(s, one).rx.want
    ensures Extend(Extend(s, one), rest) == Extend(s, one + rest)
  {
    assert s.rx.data + (one + rest) == (s.rx.data + one) + rest;
  }

  /** One turn of the loop inside a packet. */
  lemma ChunkIsFeed(t: State, rest: seq<Byte>, room: nat)
    requires Pending(t.rx) && t.rx.Partial? && Fits(t, rest, room)
    ensures var n := Min(|rest|, t.rx.want - |t.rx.data|);
            && Pending(Extend(t, rest[..n]).rx)
            && (n > 0 ==> |t.rx.data| + n <= room)
            && (Extend(t, rest[..n]).rx.Partial? ==> |Extend(t, rest[..n]).rx.data| == |t.rx.data| + n)
            && Fits(Extend(t, rest[..n]), rest[n..], room)
            && Feed(Extend(t, rest[..n]), rest[n..]) == Feed(t, rest)
  {
    var n := Min(|rest|, t.rx.want - |t.rx.data|);
    var more := rest[..n];
    ExtendPending(t, more);
    if n == 0 {
      assert t.rx.data + more == t.rx.data;
    } else {
      assert rest == more + rest[n..];
      FitsAppend(t, more, rest[n..], room);
      FeedAppend(t, more, rest[n..]);
      ExtendIsFeed(t, more, room);
    }
  }

  /** With room for every packet and no failing allocation, a block is just its bytes. */
  lemma {:induction false} ReceiveIsFeed(s: State, block: seq<Byte>, room: nat, at: nat)
    requires Pending(s.rx) && at <= |block| && Fits(s, block[at..], room)
    requires s.rx.Partial? ==> |s.rx.data| <= room
    ensures Receive(s, block, room, {}, at) == Feed(s, block[at..])
    decreases |block| - at, 1
  {
    if at < |block| {
      if s.rx.Partial? {
        FillIsFeed(s, block, room, at);
      } else {
        assert block[at..][1..] == block[at + 1..];
        if HdrLen(block[at]) == 0 {
          ReceiveIsFeed(Start(s, block[at]), block, room, at + 1);
        } else {
          FillIsFeed(Start(s, block[at]), block, room, at + 1);
        }
      }
    }
  }

  lemma {:induction false} FillIsFeed(s: State, block: seq<Byte>, room: nat, at: nat)
    requires Pending(s.rx) && s.rx.Partial? && at <= |block| && Fits(s, block[at..], room)
    requires |s.rx.data| <= room
    ensures Fill(s, block, room, {}, at) == Feed(s, block[at..])
    decreases |block| - at, if at < |block| then 0 else 2
  {
    hide Extend, Fits;
    var rest := block[at..];
    ChunkIsFeed(s, rest, room);
    var n := Min(|rest|, s.rx.want - |s.rx.data|);
    assert block[at..at + n] == rest[..n] && rest[n..] == block[at + n..];
    ReceiveIsFeed(Extend(s, rest[..n]), block, room, at + n);
  }

  // ----- any number of blocks

  lemma {:induction false} ReceivePending(s: State, block: seq<Byte>, room: nat, failAt: set<nat>, at: nat)
    requires Pending(s.rx) && at <= |block|
    ensures Pending(Receive(s, block, room, failAt, at).rx)
    decreases |block| - at, 1
  {
    if at < |block| {
      if s.rx.Partial? {
        FillPending(s, block, room, failAt, at);
      } else if HdrLen(block[at]) == 0 {
        ReceivePending(Start(s, block[at]), block, room, failAt, at + 1);
      } else if at !in failAt {
        FillPending(Start(s, block[at]), block, room, failAt, at + 1);
      }
    }
  }

  lemma {:induction false} FillPending(s: State, block: seq<Byte>, room: nat, failAt: set<nat>, at: nat)
    requires Pending(s.rx) && s.rx.Partial? && at <= |block|
    ensures Pending(Fill(s, block, room, failAt, at).rx)
    decreases |block| - at, if at < |block| then 0 else 2
  {
    var n := Min(|block| - at, s.rx.want - |s.rx.data|);
    if |s.rx.data| + n <= room {
      ExtendPending(s, block[at..at + n]);
      ReceivePending(Extend(s, block[at..at + n]), block, room, failAt, at + n);
    }
  }

  function ReceiveAll(s: State, blocks: seq<seq<Byte>>, room: nat): State
    requires Pending(s.rx)
    decreases |blocks|
  {
    if blocks == [] then s
    else
      ReceivePending(s, blocks[0], room, {}, 0);
      ReceiveAll(Receive(s, blocks[0], room, {}, 0), blocks[1..], room)
  }

  lemma {:induction false} FeedRoom(s: State, bytes: seq<Byte>, room: nat)
    requires Pending(s.rx) && Fits(s, bytes, room) && (s.rx.Partial? ==> |s.rx.data| <= room)
    ensures Feed(s, bytes).rx.Partial? ==> |Feed(s, bytes).rx.data| <= room
    decreases |bytes|
  {
    if bytes != [] {
      Feed1Pending(s, bytes[0]);
      FeedRoom(Feed1(s, bytes[0]), bytes[1..], room);
    }
  }

  /** However a stream is cut into blocks, the receiver ends in the state that the bytes one by one
      lead to: same frames, same pending bytes, same counters. */
  lemma {:induction false} BlocksAreBytes(s: State, blocks: seq<seq<Byte>>, room: nat)
    requires Pending(s.rx) && Fits(s, Flatten(blocks), room)
    requires s.rx.Partial? ==> |s.rx.data| <= room
    ensures ReceiveAll(s, blocks, room) == Feed(s, Flatten(blocks))
    decreases |blocks|
  {
    if blocks != [] {
      var a, b := blocks[0], Flatten(blocks[1..]);
      FitsAppend(s, a, b, room);
      FeedAppend(s, a, b);
      FeedRoom(s, a, room);
      assert a[0..] == a;
      ReceiveIsFeed(s, a, room, 0);
      BlocksAreBytes(Feed(s, a), blocks[1..], room);
    }
  }

  /** Chunking invariance. */
  lemma ChunkingInvariance(s: State, a: seq<seq<Byte>>, b: seq<seq<Byte>>, room: nat)
    requires Pending(s.rx) && Flatten(a) == Flatten(b) && Fits(s, Flatten(a), room)
    requires s.rx.Partial? ==> |s.rx.data| <= room
    ensures ReceiveAll(s, a, room) == ReceiveAll(s, b, room)
  {
    BlocksAreBytes(s, a, room);
    BlocksAreBytes(s, b, room);
  }

  // ----- a packet without room

  /** What the driver does with a packet that does not fit: the rest of the block goes with it. */
  function GiveUp(s: State): State {
    s.(rx := Idle, errRx := s.errRx + 1)
  }

  /** Byte p of the stream is the first one that finds its buffer full. */
  ghost predicate OverflowsAt(s: State, bytes: seq<Byte>, room: nat, p: nat)
    requires Pending(s.rx)
    decreases |bytes|
  {
    && bytes != []
    && if p == 0 then s.rx.Partial? && |s.rx.data| >= room
       else
         (Feed1Pending(s, bytes[0]);
          (s.rx.Partial? ==> |s.rx.data| < room) && OverflowsAt(Feed1(s, bytes[0]), bytes[1..], room, p - 1))
  }

  lemma {:induction false} FindOverflow(s: State, bytes: seq<Byte>, room: nat) returns (p: nat)
    requires Pending(s.rx) && !Fits(s, bytes, room)
    ensures p < |bytes| && OverflowsAt(s, bytes, room, p)
    decreases |bytes|
  {
    if s.rx.Partial? && |s.rx.data| >= room {
      p := 0;
    } else {
      Feed1Pending(s, bytes[0]);
      p := FindOverflow(Feed1(s, bytes[0]), bytes[1..], room);
      p := p + 1;
    }
  }

  /** The overflowing byte, seen from behind a first part of the stream that it lies in or beyond. */
  lemma {:induction false} OverflowShift(s: State, a: seq<Byte>, b: seq<Byte>, room: nat, p: nat)
    requires Pending(s.rx)
    ensures p < |a| ==> (OverflowsAt(s, a + b, room, p) <==> OverflowsAt(s, a, room, p))
    ensures Pending(Feed(s, a).rx)
    ensures p >= |a| && OverflowsAt(s, a + b, room, p) ==>
              Fits(s, a, room) && OverflowsAt(Feed(s, a), b, room, p - |a|)
    ensures p < |a| && OverflowsAt(s, a, room, p) ==> !Fits(s, a, room)
    decreases |a|
  {
    FeedPending(s, a);
    if a == [] {
      assert a + b == b;
    } else {
      Feed1Pending(s, a[0]);
      assert (a + b)[1..] == a[1..] + b;
      if p > 0 { OverflowShift(Feed1(s, a[0]), a[1..], b, room, p - 1); }
    }
  }

  /** Up to the end of a turn a packet only grows. */
  lemma PartOfTurn(t: State, more: seq<Byte>, p: nat)
    requires Pending(t.rx) && t.rx.Partial? && |t.rx.data| + |more| <= t.rx.want && p < |more|
    ensures GiveUp(Feed(t, more[..p])) == GiveUp(t)
  {
    if p > 0 { ExtendIsFeed(t, more[..p], 0); }
  }

  /** A turn is refused exactly when the overflowing byte lies in it. */
  lemma TurnOverflows(t: State, more: seq<Byte>, rest: seq<Byte>, room: nat, p: nat)
    requires Pending(t.rx) && t.rx.Partial? && |t.rx.data| <= room
    requires more != [] && |t.rx.data| + |more| <= t.rx.want
    requires p < |more + rest| && OverflowsAt(t, more + rest, room, p)
    ensures p < |more| <==> |t.rx.data| + |more| > room
    ensures p < |more| ==> GiveUp(Feed(t, (more + rest)[..p])) == GiveUp(t)
    ensures p >= |more| ==>
              && Pending(Extend(t, more).rx) && Extend(t, more) == Feed(t, more)
              && (Extend(t, more).rx.Partial? ==> |Extend(t, more).rx.data| <= room)
              && OverflowsAt(Extend(t, more), rest, room, p - |more|)
              && Feed(t, (more + rest)[..p]) == Feed(Extend(t, more), rest[..p - |more|])
  {
    hide Feed, Fits, OverflowsAt;
    OverflowShift(t, more, rest, room, p);
    ExtendIsFeed(t, more, room);
    if p < |more| {
      assert (more + rest)[..p] == more[..p];
      PartOfTurn(t, more, p);
    } else {
      assert (more + rest)[..p] == more + rest[..p - |more|];
      FeedAppend(t, more, rest[..p - |more|]);
    }
  }

  /** A block with an overflow: the state just before it, without the packet and with one more error. */
  lemma {:induction false} ReceiveOverflows(s: State, block: seq<Byte>, room: nat, at: nat, p: nat)
    requires Pending(s.rx) && at <= |block| && OverflowsAt(s, block[at..], room, p) && p < |block[at..]|
    requires s.rx.Partial? ==> |s.rx.data| <= room
    ensures Receive(s, block, room, {}, at) == GiveUp(Feed(s, block[at..][..p]))
    decreases |block| - at, 1
  {
    if s.rx.Partial? {
      FillOverflows(s, block, room, at, p);
    } else {
      assert block[at..][1..] == block[at + 1..];
      assert block[at..][..p][1..] == block[at + 1..][..p - 1];
      if HdrLen(block[at]) == 0 {
        ReceiveOverflows(Start(s, block[at]), block, room, at + 1, p - 1);
      } else {
        FillOverflows(Start(s, block[at]), block, room, at + 1, p - 1);
      }
    }
  }

  lemma {:induction false} FillOverflows(s: State, block: seq<Byte>, room: nat, at: nat, p: nat)
    requires Pending(s.rx) && s.rx.Partial? && at <= |block|
    requires OverflowsAt(s, block[at..], room, p) && p < |block[at..]|
    requires |s.rx.data| <= room
    ensures Fill(s, block, room, {}, at) == GiveUp(Feed(s, block[at..][..p]))
    decreases |block| - at, if at < |block| then 0 else 2
  {
    hide Extend, Feed, OverflowsAt;
    var n := Min(|block| - at, s.rx.want - |s.rx.data|);
    var more, rest := block[at..at + n], block[at + n..];
    assert block[at..] == more + rest;
    TurnOverflows(s, more, rest, room, p);
    if |s.rx.data| + n <= room {
      ReceiveOverflows(Extend(s, more), block, room, at + n, p - n);
    }
  }

  // ----- after an overflow

  /** How much the receiver has to show for itself. */
  function Outcomes(s: State): nat {
    |s.frames| + s.errRx
  }

  /** A block never takes an outcome back, and whatever begins in it leaves a trace: an outcome, or a
      packet pending. */
  lemma {:induction false} ReceiveGrows(s: State, block: seq<Byte>, room: nat, at: nat)
    requires Pending(s.rx) && at <= |block|
    ensures var t := Receive(s, block, room, {}, at);
            Outcomes(t) >= Outcomes(s) && ((at < |block| || s.rx.Partial?) && t.rx.Idle? ==> Outcomes(t) > Outcomes(s))
    decreases |block| - at, 1
  {
    if at < |block| {
      if s.rx.Partial? {
        FillGrows(s, block, room, at);
      } else if HdrLen(block[at]) == 0 {
        ReceiveGrows(Start(s, block[at]), block, room, at + 1);
      } else {
        FillGrows(Start(s, block[at]), block, room, at + 1);
      }
    }
  }

  lemma {:induction false} FillGrows(s: State, block: seq<Byte>, room: nat, at: nat)
    requires Pending(s.rx) && s.rx.Partial? && at <= |block|
    ensures var t := Fill(s, block, room, {}, at);
            Outcomes(t) >= Outcomes(s) && (t.rx.Idle? ==> Outcomes(t) > Outcomes(s))
    decreases |block| - at, if at < |block| then 0 else 2
  {
    var n := Min(|block| - at, s.rx.want - |s.rx.data|);
    if |s.rx.data| + n <= room {
      ExtendPending(s, block[at..at + n]);
      ReceiveGrows(Extend(s, block[at..at + n]), block, room, at + n);
    }
  }

  // ----- when the cuts matter

  lemma {:induction false} NoBytes(s: State, blocks: seq<seq<Byte>>, room: nat)
    requires Pending(s.rx) && Flatten(blocks) == []
    ensures ReceiveAll(s, blocks, room) == s
    decreases |blocks|
  {
    if blocks != [] {
      assert |Flatten(blocks)| == |blocks[0]| + |Flatten(blocks[1..])|;
      NoBytes(s, blocks[1..], room);
    }
  }

  /** When only the last byte overflows there is no rest to give up, however the stream was cut. */
  lemma {:induction false} LastByteOverflows(s: State, blocks: seq<seq<Byte>>, room: nat)
    requires Pending(s.rx) && (s.rx.Partial? ==> |s.rx.data| <= room)
    requires Flatten(blocks) != [] && OverflowsAt(s, Flatten(blocks), room, |Flatten(blocks)| - 1)
    ensures ReceiveAll(s, blocks, room) == GiveUp(Feed(s, Flatten(blocks)[..|Flatten(blocks)| - 1]))
    decreases |blocks|
  {
    hide Feed, OverflowsAt, Fits, Receive;
    var a, b, p := blocks[0], Flatten(blocks[1..]), |Flatten(blocks)| - 1;
    assert a[0..] == a;
    ReceivePending(s, a, room, {}, 0);
    if b == [] {
      assert a + b == a;
      ReceiveOverflows(s, a, room, 0, p);
      NoBytes(Receive(s, a, room, {}, 0), blocks[1..], room);
    } else {
      OverflowShift(s, a, b, room, p);
      FeedRoom(s, a, room);
      ReceiveIsFeed(s, a, room, 0);
      assert (a + b)[..p] == a + b[..|b| - 1];
      FeedAppend(s, a, b[..|b| - 1]);
      LastByteOverflows(Feed(s, a), blocks[1..], room);
    }
  }

  /** Any two ways of cutting these bytes into blocks end alike. */
  ghost predicate CutsAgree(s: State, bytes: seq<Byte>, room: nat)
    requires Pending(s.rx)
  {
    forall a: seq<seq<Byte>>, b: seq<seq<Byte>> :: Flatten(a) == bytes && Flatten(b) == bytes ==>
      ReceiveAll(s, a, room) == ReceiveAll(s, b, room)
  }

  /** A byte that overflows with others behind it: in one block they are given up with it, in a
      block of their own they are read from the first one on. */
  lemma OverflowCuts(s: State, bytes: seq<Byte>, room: nat, p: nat)
    requires Pending(s.rx) && (s.rx.Partial? ==> |s.rx.data| <= room)
    requires p + 1 < |bytes| && OverflowsAt(s, bytes, room, p)
    ensures var whole, halves := [bytes], [bytes[..p + 1], bytes[p + 1..]];
            && Flatten(whole) == bytes && Flatten(halves) == bytes
            && ReceiveAll(s, whole, room) != ReceiveAll(s, halves, room)
  {
    hide Feed, OverflowsAt, Receive;
    var a, b := bytes[..p + 1], bytes[p + 1..];
    assert bytes == a + b && a[0..] == a && bytes[0..] == bytes && b[0..] == b && a[..p] == bytes[..p];
    OverflowShift(s, a, b, room, p);
    ReceiveOverflows(s, bytes, room, 0, p);
    ReceiveOverflows(s, a, room, 0, p);
    var v := GiveUp(Feed(s, bytes[..p]));
    ReceiveGrows(v, b, room, 0);
    assert Flatten([b]) == b && [a, b][1..] == [b] && Flatten([a, b]) == a + b;
    assert ReceiveAll(v, [b], room) == Receive(v, b, room, {}, 0);
  }

  /** However a stream is cut, the receiver ends in the same state, if and only if no byte before the
      last one overflows its buffer. */
  lemma CutsAgreeExactly(s: State, bytes: seq<Byte>, room: nat)
    requires Pending(s.rx) && (s.rx.Partial? ==> |s.rx.data| <= room) && bytes != []
    ensures CutsAgree(s, bytes, room) <==> Fits(s, bytes[..|bytes| - 1], room)
  {
    hide Feed, Receive, ReceiveAll, Flatten, Fits, OverflowsAt;
    var init, last := bytes[..|bytes| - 1], bytes[|bytes| - 1..];
    assert bytes == init + last;
    if !Fits(s, init, room) {
      var p := FindOverflow(s, init, room);
      OverflowShift(s, init, last, room, p);
      OverflowCuts(s, bytes, room, p);
    } else if Fits(s, bytes, room) {
      forall a: seq<seq<Byte>>, b: seq<seq<Byte>> | Flatten(a) == bytes && Flatten(b) == bytes
        ensures ReceiveAll(s, a, room) == ReceiveAll(s, b, room)
      {
        ChunkingInvariance(s, a, b, room);
      }
    } else {
      var p := FindOverflow(s, bytes, room);
      OverflowShift(s, init, last, room, p);
      forall a: seq<seq<Byte>>, b: seq<seq<Byte>> | Flatten(a) == bytes && Flatten(b) == bytes
        ensures ReceiveAll(s, a, room) == ReceiveAll(s, b, room)
      {
        LastByteOverflows(s, a, room);
        LastByteOverflows(s, b, room);
      }
    }
  }

  function Zeros(n: nat): seq<Byte> {
    seq(n, _ => 0)
  }

  /** Without room for the packet the cut matters: given two surplus bytes in the block that
      overflows, both are discarded; in blocks of their own the second is read as a packet type. */
  lemma OversizeDependsOnCuts(s: State, room: nat)
    requires s.rx.Idle? && 4 <= room < 0x1_0000
    ensures var head := [ACL, 0, 0, 0xFF, 0xFF] + Zeros(room - 4);
            && ReceiveAll(s, [head + [0, 0]], room) == s.(errRx := s.errRx + 1)
            && ReceiveAll(s, [head, [0], [0]], room) == s.(errRx := s.errRx + 2)
  {
    var head := [ACL, 0, 0, 0xFF, 0xFF] + Zeros(room - 4);
    var u := s.(rx := Partial(ACL, [0, 0, 0xFF, 0xFF], 4 + 0xFFFF));
    LongHeader(s, head, room);
    LongHeader(s, head + [0, 0], room);
    var v := s.(rx := Partial(ACL, [0, 0, 0xFF, 0xFF] + Zeros(room - 4), 4 + 0xFFFF));
    assert head[5..5 + (room - 4)] == Zeros(room - 4);
    assert Extend(u, Zeros(room - 4)) == v;
    assert |head| == room + 1;
    if room == 4 {
      assert v == u && Receive(u, head, room, {}, 5) == u;
    } else {
      assert Fill(u, head, room, {}, 5) == Receive(v, head, room, {}, |head|) == v;
    }
    assert Receive(s, head, room, {}, 0) == v;
    var w := s.(errRx := s.errRx + 1);
    assert Receive(v, [0], room, {}, 0) == w;
    assert Receive(w, [0], room, {}, 0) == s.(errRx := s.errRx + 2);
    assert [head, [0], [0]][1..] == [[0], [0]] && [[0], [0]][1..] == [[0]];
    assert ReceiveAll(s, [head, [0], [0]], room) == ReceiveAll(v, [[0], [0]], room)
        == ReceiveAll(w, [[0]], room);
    assert ReceiveAll(s, [head + [0, 0]], room) == ReceiveAll(Receive(s, head + [0, 0], room, {}, 0), [], room);
  }

  /** A block that starts with the header of the longest ACL packet. */
  lemma LongHeader(s: State, block: seq<Byte>, room: nat)
    requires s.rx.Idle? && 4 <= room && |block| >= 5 && block[..5] == [ACL, 0, 0, 0xFF, 0xFF]
    ensures Receive(s, block, room, {}, 0)
         == Receive(s.(rx := Partial(ACL, [0, 0, 0xFF, 0xFF], 4 + 0xFFFF)), block, room, {}, 5)
  {
    var header := [0, 0, 0xFF, 0xFF];
    assert block[1..5] == block[..5][1..] == header;
    assert block[0] == block[..5][0];
    var t := Start(s, ACL);
    assert t.rx.data + header == header;
    assert Receive(s, block, room, {}, 0) == Fill(t, block, room, {}, 1);
    assert Fill(t, block, room, {}, 1) == Receive(Extend(t, header), block, room, {}, 5);
  }

  // ----- round trip

  /** What the controller sends, by meaning rather than by bytes. */
  datatype Packet =
    | EventPacket(code: Byte, params: seq<Byte>)
    | AclPacket(handleLo: Byte, handleHi: Byte, payload: seq<Byte>)
    | ScoPacket(handleLo: Byte, handleHi: Byte, payload: seq<Byte>)
    | IsoPacket(handleLo: Byte, handleHi: Byte, rfu: nat, payload: seq<Byte>)

  predicate WellFormed(p: Packet) {
    match p
    case EventPacket(_, params) => |params| < 0x100
    case AclPacket(_, _, payload) => |payload| < 0x1_0000
    case ScoPacket(_, _, payload) => |payload| < 0x100
    case IsoPacket(_, _, rfu, payload) => rfu < 4 && |payload| < 0x4000
  }

  function KindOf(p: Packet): Byte {
    match p
    case EventPacket(_, _) => 4
    case AclPacket(_, _, _) => 2
    case ScoPacket(_, _, _) => 3
    case IsoPacket(_, _, _, _) => 5
  }

  function Header(p: Packet): seq<Byte>
    requires WellFormed(p)
  {
    match p
    case EventPacket(code, params) => [code, |params|]
    case AclPacket(lo, hi, payload) => [lo, hi, |payload| % 256, |payload| / 256]
    case ScoPacket(lo, hi, payload) => [lo, hi, |payload|]
    case IsoPacket(lo, hi, rfu, payload) => [lo, hi, |payload| % 256, |payload| / 256 + 64 * rfu]
  }

  function Payload(p: Packet): seq<Byte> {
    match p
    case EventPacket(_, params) => params
    case AclPacket(_, _, payload) => payload
    case ScoPacket(_, _, payload) => payload
    case IsoPacket(_, _, _, payload) => payload
  }

  function Decoded(p: Packet): Frame
    requires WellFormed(p)
  {
    Frame(KindOf(p), Header(p) + Payload(p))
  }

  /** A packet preceded by bytes that start no packet. */
  datatype Item = Item(junk: seq<Byte>, packet: Packet)

  /** The four values that start a packet. */
  predicate Starts(b: Byte) {
    b == 2 || b == 3 || b == 4 || b == 5
  }

  predicate Junk(bytes: seq<Byte>) {
    forall i :: 0 <= i < |bytes| ==> !Starts(bytes[i])
  }

  function JunkBytes(items: seq<Item>): nat {
    if items == [] then 0 else |items[0].junk| + JunkBytes(items[1..])
  }

  function DataBytes(items: seq<Item>): nat
    requires AllWell(items)
  {
    if items == [] then 0 else |Decoded(items[0].packet).data| + DataBytes(items[1..])
  }

  predicate AllWell(items: seq<Item>) {
    forall i :: 0 <= i < |items| ==> WellFormed(items[i].packet)
  }

  ghost predicate Sendable(items: seq<Item>, room: nat) {
    && AllWell(items)
    && forall i :: 0 <= i < |items| ==>
         Junk(items[i].junk) && |Decoded(items[i].packet).data| <= room
  }

  lemma SendableTail(items: seq<Item>, room: nat)
    requires items != [] && Sendable(items, room)
    ensures Sendable(items[1..], room) && AllWell(items[1..]) && WellFormed(items[0].packet)
    ensures Junk(items[0].junk) && |Decoded(items[0].packet).data| <= room
    ensures AllDecoded(items) == [Decoded(items[0].packet)] + AllDecoded(items[1..])
    ensures JunkBytes(items) == |items[0].junk| + JunkBytes(items[1..])
    ensures DataBytes(items) == |Decoded(items[0].packet).data| + DataBytes(items[1..])
  {
  }

  function ItemBytes(item: Item): seq<Byte>
    requires WellFormed(item.packet)
  {
    item.junk + ([KindOf(item.packet)] + (Header(item.packet) + Payload(item.packet)))
  }

  function Encode(items: seq<Item>): seq<Byte>
    requires AllWell(items)
  {
    if items == [] then [] else ItemBytes(items[0]) + Encode(items[1..])
  }

  function AllDecoded(items: seq<Item>): seq<Frame>
    requires AllWell(items)
  {
    if items == [] then [] else [Decoded(items[0].packet)] + AllDecoded(items[1..])
  }

  lemma {:induction false} FitsJoin(s: State, a: seq<Byte>, b: seq<Byte>, room: nat)
    requires Pending(s.rx) && Fits(s, a, room)
    requires Pending(Feed(s, a).rx) && Fits(Feed(s, a), b, room)
    ensures Fits(s, a + b, room)
    decreases |a|
  {
    if a == [] {
      assert a + b == b;
    } else {
      assert (a + b)[1..] == a[1..] + b;
      Feed1Pending(s, a[0]);
      FitsJoin(Feed1(s, a[0]), a[1..], b, room);
    }
  }

  lemma FeedJoin(s: State, a: seq<Byte>, b: seq<Byte>, room: nat)
    requires Pending(s.rx) && Fits(s, a, room)
    requires Pending(Feed(s, a).rx) && Fits(Feed(s, a), b, room)
    ensures Fits(s, a + b, room) && Feed(s, a + b) == Feed(Feed(s, a), b)
  {
    FeedAppend(s, a, b);
    FitsJoin(s, a, b, room);
  }

  lemma {:induction false} FeedJunk(s: State, junk: seq<Byte>, room: nat)
    requires s.rx.Idle? && Junk(junk)
    ensures Feed(s, junk) == s.(errRx := s.errRx + |junk|) && Fits(s, junk, room)
    decreases |junk|
  {
    if junk != [] { FeedJunk(Start(s, junk[0]), junk[1..], room); }
  }

  /** The header of a packet announces exactly its payload. */
  lemma HeaderAnnounces(p: Packet)
    requires WellFormed(p)
    ensures |Header(p)| == HdrLen(KindOf(p)) > 0
    ensures PayloadLen(KindOf(p), Header(p)) == |Payload(p)|
  {
  }

  lemma FeedPacket(s: State, p: Packet, room: nat)
    requires s.rx.Idle? && WellFormed(p) && |Decoded(p).data| <= room
    ensures var bytes := [KindOf(p)] + (Header(p) + Payload(p));
            && Feed(s, bytes) == s.(frames := s.frames + [Decoded(p)], byteRx := s.byteRx + |Decoded(p).data|)
            && Fits(s, bytes, room)
  {
    hide PayloadLen, Header;
    var header, payload := Header(p), Payload(p);
    HeaderAnnounces(p);
    var t := Start(s, KindOf(p));
    assert [KindOf(p)] + (header + payload) == [KindOf(p)] + header + payload;
    assert ([KindOf(p)] + (header + payload))[1..] == header + payload;
    ExtendPending(t, header);
    ExtendIsFeed(t, header, room);
    var u := Extend(t, header);
    assert t.rx.data + header == header;
    FeedAppend(t, header, payload);
    if payload == [] {
      assert header + payload == header;
    } else {
      ExtendIsFeed(u, payload, room);
      FitsJoin(t, header, payload, room);
    }
  }

  lemma FeedItem(s: State, item: Item, room: nat)
    requires s.rx.Idle? && Junk(item.junk) && WellFormed(item.packet) && |Decoded(item.packet).data| <= room
    ensures var t := Feed(s, ItemBytes(item));
            && t.rx.Idle? && Pending(t.rx) && Fits(s, ItemBytes(item), room)
            && t.frames == s.frames + [Decoded(item.packet)]
            && t.errRx == s.errRx + |item.junk| && t.byteRx == s.byteRx + |Decoded(item.packet).data|
  {
    hide Fits, Feed, Header, Payload, Junk;
    var p := item.packet;
    FeedJunk(s, item.junk, room);
    FeedPacket(Feed(s, item.junk), p, room);
    FeedJoin(s, item.junk, [KindOf(p)] + (Header(p) + Payload(p)), room);
  }

  lemma EncodeSplit(items: seq<Item>, tail: seq<Byte>)
    requires items != [] && AllWell(items) && AllWell(items[1..]) && WellFormed(items[0].packet)
    ensures Encode(items) + tail == ItemBytes(items[0]) + (Encode(items[1..]) + tail)
  {
    hide ItemBytes;
  }

  lemma {:induction false} FeedItems(s: State, items: seq<Item>, tail: seq<Byte>, room: nat)
    requires s.rx.Idle? && Sendable(items, room) && Junk(tail)
    ensures var bytes := Encode(items) + tail;
            && Fits(s, bytes, room)
            && Feed(s, bytes).rx.Idle?
            && Feed(s, bytes).frames == s.frames + AllDecoded(items)
            && Feed(s, bytes).errRx == s.errRx + JunkBytes(items) + |tail|
            && Feed(s, bytes).byteRx == s.byteRx + DataBytes(items)
    decreases |items|
  {
    hide Fits, Feed, ItemBytes, Junk, Decoded;
    if items == [] {
      FeedJunk(s, tail, room);
      assert Encode(items) + tail == tail;
    } else {
      SendableTail(items, room);
      hide Sendable, AllWell, WellFormed, Encode, AllDecoded, Pending, JunkBytes, DataBytes;
      IdlePending(s.rx);
      FeedItem(s, items[0], room);
      EncodeSplit(items, tail);
      var u := Feed(s, ItemBytes(items[0]));
      FeedItems(u, items[1..], tail, room);
      FeedJoin(s, ItemBytes(items[0]), Encode(items[1..]) + tail, room);
      assert s.frames + AllDecoded(items) == (s.frames + [Decoded(items[0].packet)]) + AllDecoded(items[1..]);
    }
  }

  /** Any list of well-formed packets, with junk between them and cut anywhere, is handed up as
      exactly that list, and nothing stays pending; each junk byte is one error, and the bytes of the
      packets after their types are counted. */
  lemma RoundTrip(s: State, items: seq<Item>, tail: seq<Byte>, blocks: seq<seq<Byte>>, room: nat)
    requires s.rx.Idle? && Sendable(items, room) && Junk(tail)
    requires Flatten(blocks) == Encode(items) + tail
    ensures ReceiveAll(s, blocks, room).frames == s.frames + AllDecoded(items)
    ensures ReceiveAll(s, blocks, room).rx.Idle?
    ensures ReceiveAll(s, blocks, room).errRx == s.errRx + JunkBytes(items) + |tail|
    ensures ReceiveAll(s, blocks, room).byteRx == s.byteRx + DataBytes(items)
  {
    FeedItems(s, items, tail, room);
    BlocksAreBytes(s, blocks, room);
  }

  // ----- packet types and failed allocations

  /** Exactly these bytes start a packet, with headers of these lengths. */
  lemma HeaderLengths(b: Byte)
    ensures HdrLen(b) == 0 <==> !Starts(b)
    ensures HdrLen(2) == 4 && HdrLen(3) == 3 && HdrLen(4) == 2 && HdrLen(5) == 4
  {
  }

  /** With the receiver in s at offset `at`, a packet starts at offset j. */
  ghost predicate PacketAt(s: State, block: seq<Byte>, at: nat, j: nat)
    requires Pending(s.rx) && at <= j < |block|
  {
    Feed(s, block[at..j]).rx.Idle? && Starts(block[j])
  }

  /** Offset a is the first one at which a packet starts and an allocation fails. */
  ghost predicate FailsFirst(s: State, block: seq<Byte>, failAt: set<nat>, at: nat, a: nat)
    requires Pending(s.rx) && at <= a < |block|
  {
    && PacketAt(s, block, at, a) && a in failAt
    && forall j :: at <= j < a && j in failAt ==> !PacketAt(s, block, at, j)
  }

  lemma FailsLater(s: State, block: seq<Byte>, failAt: set<nat>, at: nat, a: nat, n: nat)
    requires Pending(s.rx) && at + n <= a < |block| && FailsFirst(s, block, failAt, at, a)
    ensures var t := Feed(s, block[at..at + n]);
            && Pending(t.rx) && FailsFirst(t, block, failAt, at + n, a)
            && Feed(s, block[at..a]) == Feed(t, block[at + n..a])
  {
    var more := block[at..at + n];
    FeedPending(s, more);
    forall j | at + n <= j <= a
      ensures Feed(s, block[at..j]) == Feed(Feed(s, more), block[at + n..j])
    {
      assert block[at..j] == more + block[at + n..j];
      FeedAppend(s, more, block[at + n..j]);
    }
  }

  /** A failed allocation gives up on the rest of the block: what was complete before stays, and the
      packet that would have started is one error. */
  lemma {:induction false} ReceiveFails(s: State, block: seq<Byte>, room: nat, failAt: set<nat>, at: nat, a: nat)
    requires Pending(s.rx) && at <= a < |block| && FailsFirst(s, block, failAt, at, a)
    requires Fits(s, block[at..a], room) && (s.rx.Partial? ==> |s.rx.data| <= room)
    ensures var t := Feed(s, block[at..a]);
            Receive(s, block, room, failAt, at) == t.(errRx := t.errRx + 1)
    decreases |block| - at, 1
  {
    assert block[at..at] == [];
    HeaderLengths(block[at]);
    if s.rx.Partial? {
      FillFails(s, block, room, failAt, at, a);
    } else if at < a {
      assert PacketAt(s, block, at, at) <==> Starts(block[at]);
      assert block[at..a][1..] == block[at + 1..a] && block[at..at + 1] == [block[at]];
      FailsLater(s, block, failAt, at, a, 1);
      assert Feed(s, [block[at]]) == Start(s, block[at]);
      if HdrLen(block[at]) == 0 {
        ReceiveFails(Start(s, block[at]), block, room, failAt, at + 1, a);
      } else {
        FillFails(Start(s, block[at]), block, room, failAt, at + 1, a);
      }
    }
  }

  lemma {:induction false} FillFails(s: State, block: seq<Byte>, room: nat, failAt: set<nat>, at: nat, a: nat)
    requires Pending(s.rx) && s.rx.Partial? && at <= a < |block| && FailsFirst(s, block, failAt, at, a)
    requires Fits(s, block[at..a], room) && |s.rx.data| <= room
    ensures var t := Feed(s, block[at..a]);
            Fill(s, block, room, failAt, at) == t.(errRx := t.errRx + 1)
    decreases |block| - at, if at < |block| then 0 else 2
  {
    var n := Min(|block| - at, s.rx.want - |s.rx.data|);
    NotMidway(s, block[at..a]);
    hide Extend, Feed, Fits, PacketAt;
    var more, rest := block[at..at + n], block[at + n..a];
    assert block[at..a] == more + rest;
    FailsLater(s, block, failAt, at, a, n);
    FitsAppend(s, more, rest, room);
    ExtendIsFeed(s, more, room);
    ExtendRoom(s, more, room);
    ReceiveFails(Extend(s, more), block, room, failAt, at + n, a);
  }

  lemma ExtendRoom(s: State, more: seq<Byte>, room: nat)
    requires Pending(s.rx) && s.rx.Partial? && |s.rx.data| + |more| <= s.rx.want && |s.rx.data| + |more| <= room
    ensures Extend(s, more).rx.Partial? ==> |Extend(s, more).rx.data| <= room
  {
  }

  /** A packet that is complete after some bytes has had all that the current turn wants. */
  lemma NotMidway(s: State, bytes: seq<Byte>)
    requires Pending(s.rx) && s.rx.Partial? && Feed(s, bytes).rx.Idle?
    ensures |bytes| >= s.rx.want - |s.rx.data|
  {
    if bytes != [] && |bytes| < s.rx.want - |s.rx.data| {
      ExtendIsFeed(s, bytes, 0);
    }
  }

  // ----- the driver's receiver

  class Receiver {
    const room: nat           // tailroom of a buffer from bt_skb_alloc(HCI_MAX_FRAME_SIZE)
    var hasSkb: bool          // rx_skb is not NULL
    var kind: Byte
    var skb: seq<Byte>
    var hdrLen: nat
    var want: nat
    var frames: seq<Frame>    // handed to hci_recv_frame
    var errRx: nat
    var byteRx: nat

    ghost function Abs(): State
      reads this
    {
      State(if hasSkb then Partial(kind, skb, want) else Idle, frames, errRx, byteRx)
    }

    ghost predicate Valid()
      reads this
    {
      Pending(Abs().rx) && (hasSkb ==> hdrLen == HdrLen(kind) && |skb| <= room)
    }

    constructor (room: nat)
      ensures Valid() && this.room == room && Abs() == State(Idle, [], 0, 0)
    {
      this.room := room;
      hasSkb, kind, skb, hdrLen, want := false, 0, [], 0, 0;
      frames, errRx, byteRx := [], 0, 0;
    }

    /** sprd_hci_recv on a running device */
    method Recv(data: seq<Byte>, failAt: set<nat>)
      requires Valid()
      modifies this
      ensures Valid() && Abs() == Receive(old(Abs()), data, room, failAt, 0)
    {
      hide Extend, Pending, PayloadLen, Receive, Fill;
      var at := 0;
      while at < |data|
        invariant at <= |data| && Valid()
        invariant Receive(Abs(), data, room, failAt, at) == Receive(old(Abs()), data, room, failAt, 0)
      {
        ReceiveTurn(Abs(), data, room, failAt, at);
        if !hasSkb {
          var t := data[at];
          hdrLen := HdrLen(t);
          if hdrLen == 0 {
            errRx := errRx + 1;
            at := at + 1;
            IdlePending(Abs().rx);
            continue;
          }
          if at in failAt {
            errRx := errRx + 1;
            IdlePending(Abs().rx);
            return;
          }
          at := at + 1;
          hasSkb, kind, skb, want := true, t, [], hdrLen;
          StartPending(kind);
        }
        PartialFacts(Abs().rx);
        assert Fill(Abs(), data, room, failAt, at) == Receive(old(Abs()), data, room, failAt, 0);
        FillTurn(Abs(), data, room, failAt, at);
        var n := Min(|data| - at, want - |skb|);
        if n > room - |skb| {
          errRx := errRx + 1;
          hasSkb := false;
          IdlePending(Abs().rx);
          return;
        }
        Append(data[at..at + n]);
        at := at + n;
      }
      ReceiveEnd(Abs(), data, room, failAt);
    }

    /** The bytes of one turn join the buffer; a complete header sets the length, a complete packet
        is handed up. */
    method Append(more: seq<Byte>)
      requires Valid() && hasSkb && |skb| + |more| <= want && |skb| + |more| <= room
      modifies this`skb, this`want, this`byteRx, this`frames, this`hasSkb
      ensures Valid() && Abs() == Extend(old(Abs()), more)
    {
      ExtendPending(Abs(), more);
      skb := skb + more;
      if |skb| == hdrLen && want == hdrLen {
        want := hdrLen + PayloadLen(kind, skb);
      }
      if |skb| == want {
        byteRx := byteRx + |skb|;
        frames := frames + [Frame(kind, skb)];
        hasSkb := false;
      }
    }
  }

  /** The branches of the loop body, by their guards. */
  lemma ReceiveTurn(s: State, block: seq<Byte>, room: nat, failAt: set<nat>, at: nat)
    requires Pending(s.rx) && at < |block|
    ensures s.rx.Partial? ==> Receive(s, block, room, failAt, at) == Fill(s, block, room, failAt, at)
    ensures s.rx.Idle? && HdrLen(block[at]) == 0 ==>
      Receive(s, block, room, failAt, at) == Receive(s.(errRx := s.errRx + 1), block, room, failAt, at + 1)
    ensures s.rx.Idle? && HdrLen(block[at]) != 0 && at in failAt ==>
      Receive(s, block, room, failAt, at) == s.(errRx := s.errRx + 1)
    ensures s.rx.Idle? && HdrLen(block[at]) != 0 && at !in failAt ==>
      && Pending(Partial(block[at], [], HdrLen(block[at])))
      && Receive(s, block, room, failAt, at)
      == Fill(s.(rx := Partial(block[at], [], HdrLen(block[at]))), block, room, failAt, at + 1)
  {
  }

  lemma ReceiveEnd(s: State, block: seq<Byte>, room: nat, failAt: set<nat>)
    requires Pending(s.rx)
    ensures Receive(s, block, room, failAt, |block|) == s
  {
  }

  lemma FillTurn(s: State, block: seq<Byte>, room: nat, failAt: set<nat>, at: nat)
    requires Pending(s.rx) && s.rx.Partial? && |s.rx.data| < s.rx.want && at <= |block|
    ensures var n := Min(|block| - at, s.rx.want - |s.rx.data|);
            if |s.rx.data| + n > room then
              Fill(s, block, room, failAt, at) == s.(rx := Idle, errRx := s.errRx + 1)
            else
              && Pending(Extend(s, block[at..at + n]).rx)
              && Fill(s, block, room, failAt, at)
              == Receive(Extend(s, block[at..at + n]), block, room, failAt, at + n)
  {
    var n := Min(|block| - at, s.rx.want - |s.rx.data|);
    if |s.rx.data| + n <= room { ExtendPending(s, block[at..at + n]); }
  }

  lemma IdlePending(rx: Rx)
    requires rx.Idle?
    ensures Pending(rx)
  {
  }

  lemma StartPending(kind: Byte)
    requires HdrLen(kind) != 0
    ensures Pending(Partial(kind, [], HdrLen(kind)))
  {
  }

  lemma PartialFacts(rx: Rx)
    requires Pending(rx) && rx.Partial?
    ensures HdrLen(rx.kind) != 0 && |rx.data| < rx.want
  {
  }
}
