/** The reference block-ack reorder window: unbounded sequence numbers, one map entry per MPDU that
    is waiting, no ring buffer and no fast path. It follows the receive reordering buffer control
    operation of section 9.21.7.6 of IEEE 802.11-2012 together with the driver's own choices (replay
    check at release, loss-recovery timeout, sessions closed after too many timeouts). */
module ReorderWindow {
  import opened Common
  import opened SeqNo

  const CIPHER_TKIP := 1
  const CIPHER_CCMP := 2
  const MAX_TIMEOUT_CNT := 60
  const PN_LOW_SPACE := 0x1_0000_0000
  const PN_HIGH_SPACE := 0x1_0000
  const MSDU_NUM_SPACE := 0x1_0000

  /** The identity of one socket buffer. */
  type Buf = nat

  /** What the descriptor of one received MSDU says; a filter event carries no buffer. */
  datatype Frame = Frame(last: bool, pnL: nat, pnH: nat, cipher: nat, buf: Option<Buf>) {
    function Bufs(): seq<Buf> {
      if buf.Some? then [buf.value] else []
    }
  }

  /** An MPDU waiting in the window, with the buffers of its MSDUs in arrival order. */
  datatype Mpdu = Mpdu(pnL: nat, pnH: nat, cipher: nat, last: bool, count: nat, bufs: seq<Buf>)

  datatype Replay = Replay(pnL: nat, pnH: nat, reset: bool)

  /** One released MPDU; `passed` tells whether the replay check let its buffers through. */
  datatype Release = Release(n: nat, mpdu: Mpdu, passed: bool)

  /** One accepted MSDU. */
  datatype Taken = Taken(n: nat, frame: Frame)

  /** The reference session. `log`, `taken` and `resets` are histories; the rest is state. */
  datatype Ref = Ref(
    start: nat, size: nat, held: map<nat, Mpdu>, replay: Replay,
    delivered: seq<Buf>, freed: seq<Buf>,
    active: bool, timeouts: nat, delbas: nat,
    log: seq<Release>, taken: seq<Taken>, resets: nat)

  // ----- replay detection

  predicate Protected(cipher: nat) {
    cipher == CIPHER_TKIP || cipher == CIPHER_CCMP
  }

  /** replay_detection: the verdict and the new packet-number state. */
  function Check(r: Replay, pnL: nat, pnH: nat, cipher: nat): (bool, Replay) {
    if !Protected(cipher) then
      (true, r)
    else if r.reset && r.pnL >= pnL && r.pnH >= pnH then
      (true, Replay(pnL, pnH, false))
    else if (r.pnH == pnH && r.pnL < pnL) || r.pnH < pnH then
      (true, r.(pnL := pnL, pnH := pnH))
    else
      (false, r)
  }

  // ----- releasing

  predicate Complete(r: Ref, n: nat) {
    n in r.held && r.held[n].last
  }

  /** Hands one MPDU up, or frees its buffers when the replay check fails. An MPDU without buffers
      (a hole closed by a filter event) is not checked. */
  function Emit(r: Ref, n: nat, m: Mpdu): (s: Ref)
    ensures s.start == r.start
  {
    if m.bufs == [] then
      r.(log := r.log + [Release(n, m, true)])
    else
      var (ok, replay') := Check(r.replay, m.pnL, m.pnH, m.cipher);
      if ok then
        r.(replay := replay', delivered := r.delivered + m.bufs, log := r.log + [Release(n, m, true)])
      else
        r.(replay := replay', freed := r.freed + m.bufs, log := r.log + [Release(n, m, false)])
  }

  /** Moves the window start over one sequence number, releasing whatever is held there. */
  function Advance(r: Ref): (s: Ref)
    ensures s.start == r.start + 1
  {
    if r.start in r.held then
      Emit(r, r.start, r.held[r.start]).(start := r.start + 1, held := r.held - {r.start})
    else
      r.(start := r.start + 1)
  }

  /** Releases the run of complete MPDUs at the window start. */
  function InOrder(r: Ref): (s: Ref)
    ensures s.start >= r.start
    decreases r.held.Keys
  {
    if Complete(r, r.start) then
      assert r.start in r.held.Keys && r.start !in Advance(r).held.Keys;
      InOrder(Advance(r))
    else r
  }

  /** Releases everything held below `goal`, complete or not, and starts the window there. */
  function Gap(r: Ref, goal: nat): (s: Ref)
    ensures s.start >= r.start
    decreases goal - r.start
  {
    if r.start >= goal then r else Gap(Advance(r), goal)
  }

  // ----- receiving

  predicate SamePn(m: Mpdu, f: Frame) {
    Protected(m.cipher) ==> m.pnL == f.pnL && m.pnH == f.pnH
  }

  /** Makes room for number n: a number beyond the window drags the window forward. */
  function MakeRoom(r: Ref, n: nat): Ref {
    if n >= r.start + r.size then InOrder(Gap(r, n - r.size + 1)) else r
  }

  /** Whether the window takes an MSDU with number n: it opens an MPDU or continues one. */
  predicate Takes(r: Ref, n: nat, f: Frame) {
    n >= r.start && (n in r.held ==> !r.held[n].last && SamePn(r.held[n], f))
  }

  function Fresh(f: Frame): Mpdu {
    Mpdu(f.pnL, f.pnH, f.cipher, f.last, 1, f.Bufs())
  }

  function Joined(m: Mpdu, f: Frame): Mpdu {
    m.(last := f.last, count := m.count + 1, bufs := m.bufs + f.Bufs())
  }

  function Store(r: Ref, n: nat, f: Frame): Ref {
    var m := if n in r.held then Joined(r.held[n], f) else Fresh(f);
    r.(held := r.held[n := m], taken := r.taken + [Taken(n, f)])
  }

  /** The retry counter is cleared whenever nothing is left waiting. */
  function Settle(r: Ref): Ref {
    if r.held == map[] then r.(timeouts := 0) else r
  }

  /** One MSDU (or filter event) with unbounded sequence number n. */
  function Receive(r: Ref, n: nat, f: Frame): (s: Ref)
    ensures s.start >= r.start
  {
    var room := if n >= r.start then MakeRoom(r, n) else r;
    if !Takes(room, n, f) then
      Settle(room.(freed := room.freed + f.Bufs()))
    else
      var s := Store(room, n, f);
      Settle(if f.last && n == s.start then InOrder(s) else s)
  }

  // ----- loss recovery

  /** The largest number held below `end`, or start - 1. */
  function Top(r: Ref, end: int): int
    decreases end - r.start
  {
    if end <= r.start then r.start - 1
    else if end - 1 in r.held then end - 1
    else Top(r, end - 1)
  }

  /** The first complete MPDU at or after n, or `stop`. */
  function Scan(r: Ref, n: nat, stop: nat): nat
    decreases stop - n
  {
    if n >= stop || Complete(r, n) then n else Scan(r, n + 1, stop)
  }

  function Tail(r: Ref): int {
    Top(r, r.start + r.size)
  }

  /** Where a timeout restarts the window: the first complete MPDU, or past everything held. */
  function Target(r: Ref): nat {
    Scan(r, r.start, if Tail(r) < 0 then 0 else Tail(r) + 1)
  }

  /** One more retry; after too many the session closes and the peer is told by a DELBA request. */
  function CountTimeout(r: Ref): Ref {
    if r.timeouts + 1 > MAX_TIMEOUT_CNT
    then r.(timeouts := 0, active := false, delbas := r.delbas + 1)
    else r.(timeouts := r.timeouts + 1)
  }

  /** Restarts the window at `goal` and counts the retry. */
  function Recover(r: Ref, goal: nat): (s: Ref)
    ensures s.start >= r.start
  {
    Settle(CountTimeout(InOrder(Gap(r, goal))))
  }

  function Timeout(r: Ref): Ref {
    Recover(r, Target(r))
  }

  // ----- what is held

  function BufsAt(held: map<nat, Mpdu>, n: nat): multiset<Buf> {
    if n in held then multiset(held[n].bufs) else multiset{}
  }

  /** The buffers waiting in [lo, hi). */
  function HeldBufs(held: map<nat, Mpdu>, lo: nat, hi: nat): multiset<Buf>
    decreases hi - lo
  {
    if lo >= hi then multiset{}
    else BufsAt(held, lo) + HeldBufs(held, lo + 1, hi)
  }

  function Waiting(r: Ref): multiset<Buf> {
    HeldBufs(r.held, r.start, r.start + r.size)
  }

  // ----- runs

  /** `goal` is where the loss-recovery timeout chose to restart the window. */
  datatype Event = Rx(n: nat, frame: Frame) | Expire(goal: nat) | ResetPn

  function Step(r: Ref, e: Event): (s: Ref)
    ensures s.start >= r.start
  {
    match e
    case Rx(n, f) => Receive(r, n, f)
    case Expire(goal) => Recover(r, goal)
    case ResetPn => r.(replay := r.replay.(reset := true), resets := r.resets + 1)
  }

  predicate WellFormed(f: Frame) {
    f.pnL < PN_LOW_SPACE && f.pnH < PN_HIGH_SPACE
  }

  /** What the twelve-bit session needs of a frame: its order relative to the window start survives
      the reduction, and the sixteen-bit MSDU counter of its MPDU is not exhausted. */
  predicate Admissible(r: Ref, n: nat, f: Frame) {
    && Unambiguous(r.start, n)
    && WellFormed(f)
    && (n in r.held ==> r.held[n].count + 1 < MSDU_NUM_SPACE)
  }

  predicate Enabled(r: Ref, e: Event) {
    && r.active
    && match e
       case Rx(n, f) => Admissible(r, n, f)
       case Expire(goal) => r.held != map[] && goal >= r.start
       case ResetPn => true
  }

  function Run(r: Ref, es: seq<Event>): Ref
    decreases |es|
  {
    if es == [] then r else Run(Step(r, es[0]), es[1..])
  }

  predicate Runnable(r: Ref, es: seq<Event>)
    decreases |es|
  {
    es == [] || (Enabled(r, es[0]) && Runnable(Step(r, es[0]), es[1..]))
  }

  /** A session just opened by an ADDBA request and activated. */
  function Opened(start: nat, size: nat): Ref {
    Ref(start, size, map[], Replay(0, 0, false), [], [], true, 0, 0, [], [], 0)
  }
}
