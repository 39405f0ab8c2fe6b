/** The publication history of the APT repository (repository.py): what one publication may change,
    and what holds after any number of them. */
module Repository {
  import opened Common

  datatype Channel = Stable | Experimental

  function Retention(c: Channel): nat {
    match c
    case Stable => 3
    case Experimental => 2
  }

  /** A package version: date.run.attempt, followed by a suffix that is fixed for the channel. */
  datatype Version = Version(date: nat, run: nat, attempt: nat) {
    function Key(): seq<int> {
      [date, run, attempt]
    }
    /** The CI task: everything after the date. */
    function Task(): seq<int> {
      [run, attempt]
    }
  }

  /** An upstream source: its tag as a tuple of numbers, and its commit if recorded. */
  datatype Upstream = Upstream(tag: seq<int>, commit: Option<string>)

  datatype Name = Linux | Armbian | Uboot

  type Records = seq<string>

  datatype Lock = Lock(channel: Channel, version: Version, projectCommit: string,
                       linux: Upstream, armbian: Upstream, uboot: Upstream, inputsDigest: string)

  datatype Entry = Entry(version: Version, projectCommit: string, linux: Upstream, armbian: Upstream,
                         uboot: Option<Upstream>, packages: Records, inputsDigest: string)

  datatype State = State(stable: seq<Entry>, experimental: seq<Entry>) {
    function Of(c: Channel): seq<Entry> {
      if c.Stable? then stable else experimental
    }
    function With(c: Channel, h: seq<Entry>): State {
      if c.Stable? then this.(stable := h) else this.(experimental := h)
    }
  }

  datatype Error =
    | DifferentPackages | DifferentCommit | StalePublication | StaleTask
    | Regression(name: Name) | MovedTag(name: Name)

  datatype Result = Ok(state: State) | Err(error: Error)

  // ----- order of number tuples

  /** Tuples compare element by element; a proper prefix is smaller. */
  predicate Less(a: seq<int>, b: seq<int>) {
    if b == [] then false
    else if a == [] then true
    else a[0] < b[0] || (a[0] == b[0] && Less(a[1..], b[1..]))
  }

  lemma {:induction false} LessIrreflexive(a: seq<int>)
    ensures !Less(a, a)
  {
    if a != [] { LessIrreflexive(a[1..]); }
  }

  lemma {:induction false} LessTransitive(a: seq<int>, b: seq<int>, c: seq<int>)
    requires Less(a, b) && Less(b, c)
    ensures Less(a, c)
  {
    if a != [] && a[0] == b[0] == c[0] { LessTransitive(a[1..], b[1..], c[1..]); }
  }

  lemma {:induction false} LessTotal(a: seq<int>, b: seq<int>)
    ensures Less(a, b) || a == b || Less(b, a)
  {
    if a != [] && b != [] && a[0] == b[0] {
      LessTotal(a[1..], b[1..]);
      if a[1..] == b[1..] { assert a == [a[0]] + a[1..] && b == [b[0]] + b[1..]; }
    }
  }

  /** In the comparison of tuples the first different element decides, or a missing one. */
  lemma {:induction false} LessIsLexicographic(a: seq<int>, b: seq<int>)
    ensures Less(a, b) <==>
              exists i :: 0 <= i < |b| && i <= |a| && a[..i] == b[..i] && (i == |a| || a[i] < b[i])
  {
    if a == [] || b == [] {
      assert a[..0] == b[..0];
    } else {
      LessIsLexicographic(a[1..], b[1..]);
      assert a[..0] == b[..0];
      if a[0] == b[0] {
        forall i | 0 <= i < |b| - 1 && i <= |a| - 1
          ensures a[1..][..i] == b[1..][..i] <==> a[..i + 1] == b[..i + 1]
        {
          assert a[..i + 1] == [a[0]] + a[1..][..i] && b[..i + 1] == [b[0]] + b[1..][..i];
          assert a[..i + 1][1..] == a[1..][..i] && b[..i + 1][1..] == b[1..][..i];
        }
        if i :| 0 <= i < |b| - 1 && i <= |a| - 1 && a[1..][..i] == b[1..][..i]
                && (i == |a| - 1 || a[1..][i] < b[1..][i]) {
          assert a[..i + 1] == b[..i + 1];
        }
        if i :| 0 <= i < |b| && i <= |a| && a[..i] == b[..i] && (i == |a| || a[i] < b[i]) {
          assert i > 0;
          assert a[1..][..i - 1] == b[1..][..i - 1];
        }
      } else if i :| 0 < i < |b| && i <= |a| && a[..i] == b[..i] {
        assert a[0] == a[..i][0] == b[..i][0] == b[0];
      }
    }
  }

  // ----- order of versions

  /** By date, then by run, then by attempt. */
  predicate Older(a: Version, b: Version) {
    || a.date < b.date
    || (a.date == b.date && a.run < b.run)
    || (a.date == b.date && a.run == b.run && a.attempt < b.attempt)
  }

  /** By run, then by attempt, whatever the dates. */
  predicate EarlierTask(a: Version, b: Version) {
    a.run < b.run || (a.run == b.run && a.attempt < b.attempt)
  }

  /** The order of versions is the order of their dates, runs and attempts, and different versions are
      always comparable; the order of tasks leaves out the date. */
  lemma VersionOrder(a: Version, b: Version)
    ensures Less(a.Key(), b.Key()) <==>
              a.date < b.date || (a.date == b.date && (a.run < b.run || (a.run == b.run && a.attempt < b.attempt)))
    ensures Less(a.Key(), b.Key()) || a == b || Less(b.Key(), a.Key())
    ensures Less(a.Task(), b.Task()) <==> a.run < b.run || (a.run == b.run && a.attempt < b.attempt)
  {
    ThreeNumbers(a.date, a.run, a.attempt, b.date, b.run, b.attempt);
    ThreeNumbers(b.date, b.run, b.attempt, a.date, a.run, a.attempt);
  }

  lemma ThreeNumbers(x: int, y: int, z: int, u: int, v: int, w: int)
    ensures Less([y, z], [v, w]) <==> y < v || (y == v && z < w)
    ensures Less([x, y, z], [u, v, w]) <==> x < u || (x == u && Less([y, z], [v, w]))
  {
    assert [x, y, z][1..] == [y, z] && [u, v, w][1..] == [v, w];
    assert [y, z][1..] == [z] && [v, w][1..] == [w];
    assert [z][1..] == [] && [w][1..] == [];
    assert Less([z], [w]) <==> z < w;
  }

  // ----- one publication

  function Of(l: Lock, n: Name): Upstream {
    match n
    case Linux => l.linux
    case Armbian => l.armbian
    case Uboot => l.uboot
  }

  /** What an entry records; an entry written by an older tool has no U-Boot. */
  function Recorded(e: Entry, n: Name): Option<Upstream> {
    match n
    case Linux => Some(e.linux)
    case Armbian => Some(e.armbian)
    case Uboot => e.uboot
  }

  /** The upstream checks for one name against the newest entry. */
  function Checked(l: Lock, current: Entry, n: Name): Option<Error> {
    var was := Recorded(current, n);
    if was.None? then None
    else if Less(Of(l, n).tag, was.value.tag) then Some(Regression(n))
    else if Of(l, n).tag == was.value.tag && Of(l, n).commit != was.value.commit then Some(MovedTag(n))
    else None
  }

  function CheckedAll(l: Lock, current: Entry): Option<Error> {
    if Checked(l, current, Linux).Some? then Checked(l, current, Linux)
    else if Checked(l, current, Armbian).Some? then Checked(l, current, Armbian)
    else Checked(l, current, Uboot)
  }

  function NewEntry(l: Lock, records: Records): Entry {
    Entry(l.version, l.projectCommit, l.linux, l.armbian, Some(l.uboot), records, l.inputsDigest)
  }

  function Truncated(h: seq<Entry>, c: Channel): seq<Entry> {
    if |h| <= Retention(c) then h else h[..Retention(c)]
  }

  /** next_state */
  function NextState(previous: State, l: Lock, records: Records): Result {
    var h := previous.Of(l.channel);
    var next := Ok(previous.With(l.channel, Truncated([NewEntry(l, records)] + h, l.channel)));
    if h == [] then next
    else
      var current := h[0];
      if current.version == l.version then
        if current.packages != records then Err(DifferentPackages)
        else if current.projectCommit != l.projectCommit then Err(DifferentCommit)
        else Ok(previous)
      else if !Less(current.version.Key(), l.version.Key()) then Err(StalePublication)
      else if !Less(current.version.Task(), l.version.Task()) then Err(StaleTask)
      else if l.channel.Stable? && CheckedAll(l, current).Some? then Err(CheckedAll(l, current).value)
      else next
  }

  /** When a publication is accepted, and what it then does: it is the first of its channel, or repeats
      the newest entry exactly, or is newer in version and task and, on the stable channel, an upgrade
      of every upstream recorded there. A repetition changes nothing. Otherwise the newest entry is the
      one published, the others follow in order, three in all on the stable channel and two on the
      experimental one, and the other channel is untouched. */
  lemma Acceptance(s: State, l: Lock, records: Records)
    ensures var h := s.Of(l.channel);
            NextState(s, l, records).Ok? <==>
              h == [] ||
              (h[0].version == l.version && h[0].packages == records && h[0].projectCommit == l.projectCommit) ||
              (Older(h[0].version, l.version) && EarlierTask(h[0].version, l.version) &&
               (l.channel == Stable ==>
                  && Advances(l.linux, h[0].linux) && Advances(l.armbian, h[0].armbian)
                  && (h[0].uboot.Some? ==> Advances(l.uboot, h[0].uboot.value))))
    ensures NextState(s, l, records).Ok? ==>
              var (h, t) := (s.Of(l.channel), NextState(s, l, records).state);
              var z := t.Of(l.channel);
              var e := Entry(l.version, l.projectCommit, l.linux, l.armbian, Some(l.uboot), records, l.inputsDigest);
              var kept := if l.channel == Stable then 3 else 2;
              && (if h != [] && h[0].version == l.version then t == s
                  else z == if |h| < kept then [e] + h else ([e] + h)[..kept])
              && (forall d: Channel :: d != l.channel ==> t.Of(d) == s.Of(d))
  {
    var h := s.Of(l.channel);
    if h != [] {
      VersionOrder(h[0].version, l.version);
      if l.channel.Stable? {
        CheckedMeans(l, h[0]);
        NamesAreThree(l, h[0]);
      }
    }
  }

  /** Why a publication is refused; the reasons are tried in this order. */
  lemma Refusals(s: State, l: Lock, records: Records)
    requires s.Of(l.channel) != []
    ensures var e := s.Of(l.channel)[0]; var r := NextState(s, l, records);
            && (e.version == l.version && e.packages != records ==> r == Err(DifferentPackages))
            && (e.version == l.version && e.packages == records && e.projectCommit != l.projectCommit ==>
                  r == Err(DifferentCommit))
            && (e.version != l.version && !Older(e.version, l.version) ==> r == Err(StalePublication))
            && (Older(e.version, l.version) && !EarlierTask(e.version, l.version) ==> r == Err(StaleTask))
  {
    VersionOrder(s.Of(l.channel)[0].version, l.version);
  }

  /** On the stable channel a smaller tag is refused, and so is an equal one with another commit, for
      each of the three upstreams; an entry that records no U-Boot is not compared with it. */
  lemma UpstreamRefusals(s: State, l: Lock, records: Records)
    requires l.channel == Stable && s.stable != []
    requires Older(s.stable[0].version, l.version) && EarlierTask(s.stable[0].version, l.version)
    ensures var e := s.stable[0]; var r := NextState(s, l, records);
            && (Less(l.linux.tag, e.linux.tag) ==> r == Err(Regression(Linux)))
            && (l.linux.tag == e.linux.tag && l.linux.commit != e.linux.commit ==> r == Err(MovedTag(Linux)))
            && (Less(l.armbian.tag, e.armbian.tag) ==> r.Err?)
            && (l.armbian.tag == e.armbian.tag && l.armbian.commit != e.armbian.commit ==> r.Err?)
            && (e.uboot.Some? && Less(l.uboot.tag, e.uboot.value.tag) ==> r.Err?)
            && (e.uboot.Some? && l.uboot.tag == e.uboot.value.tag && l.uboot.commit != e.uboot.value.commit ==>
                  r.Err?)
            && (Less(e.linux.tag, l.linux.tag) && Less(e.armbian.tag, l.armbian.tag)
                && (e.uboot.None? || Less(e.uboot.value.tag, l.uboot.tag)) ==>
                  r.Ok?)
  {
    var e := s.stable[0];
    Acceptance(s, l, records);
    VersionOrder(e.version, l.version);
    LessIrreflexive(e.linux.tag);
    if Less(e.linux.tag, l.linux.tag) { LessAsymmetric(e.linux.tag, l.linux.tag); }
    if Less(e.armbian.tag, l.armbian.tag) { LessAsymmetric(e.armbian.tag, l.armbian.tag); }
    if Less(l.armbian.tag, e.armbian.tag) { LessAsymmetric(l.armbian.tag, e.armbian.tag); }
    LessIrreflexive(e.armbian.tag);
    if e.uboot.Some? {
      LessIrreflexive(e.uboot.value.tag);
      if Less(e.uboot.value.tag, l.uboot.tag) { LessAsymmetric(e.uboot.value.tag, l.uboot.tag); }
    }
  }

  lemma NamesAreThree(l: Lock, e: Entry)
    ensures (forall n :: Recorded(e, n).Some? ==> Advances(Of(l, n), Recorded(e, n).value)) <==>
              && Advances(l.linux, e.linux) && Advances(l.armbian, e.armbian)
              && (e.uboot.Some? ==> Advances(l.uboot, e.uboot.value))
  {
    if Advances(l.linux, e.linux) && Advances(l.armbian, e.armbian)
       && (e.uboot.Some? ==> Advances(l.uboot, e.uboot.value)) {
      forall n | Recorded(e, n).Some?
        ensures Advances(Of(l, n), Recorded(e, n).value)
      {
        match n case Linux => case Armbian => case Uboot =>
      }
    } else {
      assert Recorded(e, Linux) == Some(e.linux) && Of(l, Linux) == l.linux;
      assert Recorded(e, Armbian) == Some(e.armbian) && Of(l, Armbian) == l.armbian;
      assert Recorded(e, Uboot) == e.uboot && Of(l, Uboot) == l.uboot;
    }
  }

  /** Not an older tag, and the same commit if it is the same tag. */
  predicate Advances(x: Upstream, y: Upstream) {
    !Less(x.tag, y.tag) && (x.tag == y.tag ==> x.commit == y.commit)
  }

  lemma CheckedMeans(l: Lock, current: Entry)
    ensures CheckedAll(l, current).None? <==>
              forall n :: Recorded(current, n).Some? ==> Advances(Of(l, n), Recorded(current, n).value)
  {
    forall n
      ensures Checked(l, current, n).None? <==>
                (Recorded(current, n).Some? ==> Advances(Of(l, n), Recorded(current, n).value))
    {
    }
    if CheckedAll(l, current).None? {
      forall n ensures Checked(l, current, n).None? {}
    }
  }

  /** Publishing the same thing again changes no channel. */
  lemma RepublishIsIdempotent(s: State, l: Lock, records: Records)
    requires NextState(s, l, records).Ok?
    ensures var t := NextState(s, l, records).state;
            NextState(t, l, records) == Ok(t)
  {
    var t := NextState(s, l, records).state;
    assert t.Of(l.channel) != [] && t.Of(l.channel)[0].version == l.version;
    assert t.Of(l.channel)[0].packages == records && t.Of(l.channel)[0].projectCommit == l.projectCommit;
  }

  // ----- any sequence of publications

  datatype Publication = Publication(lock: Lock, records: Records)

  /** The repository together with everything it ever accepted, newest first. */
  datatype World = World(state: State, ever: State)

  /** A refused publication leaves the repository as it is. */
  function Publish(w: World, p: Publication): World {
    var r := NextState(w.state, p.lock, p.records);
    if r.Err? then w
    else
      var c := p.lock.channel;
      var h := w.state.Of(c);
      var again := h != [] && h[0].version == p.lock.version;
      World(r.state, if again then w.ever else w.ever.With(c, [NewEntry(p.lock, p.records)] + w.ever.Of(c)))
  }

  function PublishAll(w: World, ps: seq<Publication>): World
    decreases |ps|
  {
    if ps == [] then w else PublishAll(Publish(w, ps[0]), ps[1..])
  }

  /** Newer entries have strictly larger versions and strictly later tasks. */
  ghost predicate Descending(h: seq<Entry>) {
    forall i, j :: 0 <= i < j < |h| ==>
      Less(h[j].version.Key(), h[i].version.Key()) && Less(h[j].version.Task(), h[i].version.Task())
  }

  /** a was published after b: whatever b records a records too, no tag is smaller, and an equal tag
      means the same commit. */
  ghost predicate Upgrades(a: Entry, b: Entry) {
    forall n :: Recorded(b, n).Some? ==>
      Recorded(a, n).Some? && Advances(Recorded(a, n).value, Recorded(b, n).value)
  }

  ghost predicate Upgrading(h: seq<Entry>) {
    forall i, j :: 0 <= i < j < |h| ==> Upgrades(h[i], h[j])
  }

  ghost predicate Sound(w: World) {
    && (forall c: Channel :: w.state.Of(c) == Truncated(w.ever.Of(c), c))
    && (forall c: Channel :: Descending(w.ever.Of(c)))
    && Upgrading(w.ever.stable)
  }

  lemma ExtendDescending(h: seq<Entry>, e: Entry)
    requires Descending(h)
    requires h != [] ==> Less(h[0].version.Key(), e.version.Key()) && Less(h[0].version.Task(), e.version.Task())
    ensures Descending([e] + h)
  {
    forall j | 0 < j < |h|
      ensures Less(h[j].version.Key(), e.version.Key()) && Less(h[j].version.Task(), e.version.Task())
    {
      LessTransitive(h[j].version.Key(), h[0].version.Key(), e.version.Key());
      LessTransitive(h[j].version.Task(), h[0].version.Task(), e.version.Task());
    }
  }

  lemma TagsTransitive(a: Upstream, b: Upstream, c: Upstream)
    requires Advances(a, b) && Advances(b, c)
    ensures Advances(a, c)
  {
    LessTotal(a.tag, b.tag);
    LessTotal(b.tag, c.tag);
    LessIrreflexive(a.tag);
    if Less(c.tag, b.tag) && Less(b.tag, a.tag) {
      LessTransitive(c.tag, b.tag, a.tag);
    }
    if Less(a.tag, c.tag) && Less(c.tag, a.tag) {
      LessTransitive(a.tag, c.tag, a.tag);
    }
  }

  lemma UpgradesTransitive(a: Entry, b: Entry, c: Entry)
    requires Upgrades(a, b) && Upgrades(b, c)
    ensures Upgrades(a, c)
  {
    forall n
      ensures Recorded(c, n).Some? ==>
                Recorded(a, n).Some? && Advances(Recorded(a, n).value, Recorded(c, n).value)
    {
      if Recorded(c, n).Some? {
        TagsTransitive(Recorded(a, n).value, Recorded(b, n).value, Recorded(c, n).value);
      }
    }
  }

  lemma ExtendUpgrading(h: seq<Entry>, e: Entry)
    requires Upgrading(h) && (h != [] ==> Upgrades(e, h[0]))
    ensures Upgrading([e] + h)
  {
    forall j | 0 < j < |h|
      ensures Upgrades(e, h[j])
    {
      UpgradesTransitive(e, h[0], h[j]);
    }
  }

  /** The upstream checks of an accepted stable publication amount to an upgrade. */
  lemma AcceptedUpgrades(l: Lock, records: Records, current: Entry)
    requires CheckedAll(l, current).None?
    ensures Upgrades(NewEntry(l, records), current)
  {
    var e := NewEntry(l, records);
    CheckedMeans(l, current);
    forall n
      ensures Recorded(current, n).Some? ==>
                Recorded(e, n).Some? && Advances(Recorded(e, n).value, Recorded(current, n).value)
    {
      assert Recorded(e, n) == Some(Of(l, n));
    }
  }

  lemma PublishSound(w: World, p: Publication)
    requires Sound(w)
    ensures Sound(Publish(w, p))
  {
    var c, z := p.lock.channel, Publish(w, p);
    var h, ever, e := w.state.Of(c), w.ever.Of(c), NewEntry(p.lock, p.records);
    if NextState(w.state, p.lock, p.records).Ok? && !(h != [] && h[0].version == p.lock.version) {
      assert h == Truncated(ever, c);
      if h != [] { assert h[0] == ever[0]; }
      ExtendDescending(ever, e);
      assert Truncated([e] + h, c) == Truncated([e] + ever, c);
      forall d: Channel
        ensures z.state.Of(d) == Truncated(z.ever.Of(d), d) && Descending(z.ever.Of(d))
      {
        if d != c { assert z.state.Of(d) == w.state.Of(d) && z.ever.Of(d) == w.ever.Of(d); }
      }
      if c.Stable? {
        if h != [] { AcceptedUpgrades(p.lock, p.records, h[0]); }
        ExtendUpgrading(ever, e);
      }
    }
  }

  lemma {:induction false} PublishAllSound(w: World, ps: seq<Publication>)
    requires Sound(w)
    ensures Sound(PublishAll(w, ps))
    decreases |ps|
  {
    if ps != [] {
      PublishSound(w, ps[0]);
      PublishAllSound(Publish(w, ps[0]), ps[1..]);
    }
  }

  // ----- any deployed repository

  /** What a deployed repository may hold: nothing, or retained entries in order, of which older ones
      may record no U-Boot. */
  ghost predicate Deployed(s: State) {
    && (forall c: Channel :: |s.Of(c)| <= Retention(c) && Descending(s.Of(c)))
    && Upgrading(s.stable)
  }

  /** The repository after the publications, with everything it has accepted or was deployed with. */
  function After(s: State, ps: seq<Publication>): World {
    PublishAll(World(s, s), ps)
  }

  lemma AfterSound(s: State, ps: seq<Publication>)
    requires Deployed(s)
    ensures Sound(After(s, ps))
  {
    PublishAllSound(World(s, s), ps);
  }

  /** An empty repository is one, and so is whatever publications leave behind. */
  lemma StaysDeployed(s: State, ps: seq<Publication>)
    ensures Deployed(State([], []))
    ensures Deployed(s) ==> Deployed(After(s, ps).state)
  {
    if Deployed(s) {
      AfterSound(s, ps);
      var w := After(s, ps);
      assert w.state.Of(Stable) <= w.ever.Of(Stable);
    }
  }

  /** After any sequence of publications each channel holds the newest of all entries it ever had, at
      most three stable and two experimental ones, strictly descending in version and task; over the
      whole stable history no recorded tag ever regressed and equal tags share a commit, adjacent or
      not. */
  lemma HistoryIsMonotone(s: State, ps: seq<Publication>)
    requires Deployed(s)
    ensures var w := After(s, ps);
            && |w.state.stable| <= 3 && |w.state.experimental| <= 2
            && (forall c: Channel :: w.state.Of(c) <= w.ever.Of(c))
            && (forall c: Channel :: InOrder(w.ever.Of(c)))
            && (forall i, j :: 0 <= i < j < |w.ever.stable| ==> Succeeds(w.ever.stable[i], w.ever.stable[j]))
  {
    AfterSound(s, ps);
    var w := After(s, ps);
    assert |w.state.Of(Stable)| <= 3 && |w.state.Of(Experimental)| <= 2;
    forall c: Channel
      ensures InOrder(w.ever.Of(c))
    {
      DescendingMeans(w.ever.Of(c));
    }
    forall i, j | 0 <= i < j < |w.ever.stable|
      ensures Succeeds(w.ever.stable[i], w.ever.stable[j])
    {
      UpgradesMean(w.ever.stable[i], w.ever.stable[j]);
    }
  }

  /** Each entry is older than those before it, in version and in task. */
  ghost predicate InOrder(h: seq<Entry>) {
    forall i, j :: 0 <= i < j < |h| ==>
      Older(h[j].version, h[i].version) && EarlierTask(h[j].version, h[i].version)
  }

  lemma DescendingMeans(h: seq<Entry>)
    ensures Descending(h) <==> InOrder(h)
  {
    forall i, j | 0 <= i < |h| && 0 <= j < |h|
      ensures Older(h[j].version, h[i].version) <==> Less(h[j].version.Key(), h[i].version.Key())
      ensures EarlierTask(h[j].version, h[i].version) <==> Less(h[j].version.Task(), h[i].version.Task())
    {
      VersionOrder(h[j].version, h[i].version);
    }
  }

  /** The three upstreams of an entry against those of an earlier one. */
  ghost predicate Succeeds(a: Entry, b: Entry) {
    && Advances(a.linux, b.linux) && Advances(a.armbian, b.armbian)
    && (b.uboot.Some? ==> a.uboot.Some? && Advances(a.uboot.value, b.uboot.value))
  }

  lemma UpgradesMean(a: Entry, b: Entry)
    requires Upgrades(a, b)
    ensures Succeeds(a, b)
  {
    assert Recorded(b, Linux) == Some(b.linux) && Recorded(a, Linux) == Some(a.linux);
    assert Recorded(b, Armbian) == Some(b.armbian) && Recorded(a, Armbian) == Some(a.armbian);
    assert Recorded(b, Uboot) == b.uboot && Recorded(a, Uboot) == a.uboot;
  }

  /** No version is ever accepted twice: two entries of a channel's history have different versions. */
  lemma VersionsAreImmutable(s: State, ps: seq<Publication>, c: Channel, i: nat, j: nat)
    requires Deployed(s) && i < j < |After(s, ps).ever.Of(c)|
    ensures var h := After(s, ps).ever.Of(c);
            h[i].version != h[j].version
  {
    AfterSound(s, ps);
    var h := After(s, ps).ever.Of(c);
    assert Less(h[j].version.Key(), h[i].version.Key());
    LessIrreflexive(h[i].version.Key());
  }

  lemma LessAsymmetric(a: seq<int>, b: seq<int>)
    requires Less(a, b)
    ensures !Less(b, a)
  {
    if Less(b, a) {
      LessTransitive(a, b, a);
      LessIrreflexive(a);
    }
  }

  /** A version that was ever superseded is never accepted again, whatever it comes with and however
      long ago it left the retained history. */
  lemma SupersededVersionsAreRefused(s: State, ps: seq<Publication>, l: Lock, records: Records, i: nat)
    requires Deployed(s)
    requires var h := After(s, ps).ever.Of(l.channel); 0 < i < |h| && l.version == h[i].version
    ensures NextState(After(s, ps).state, l, records) == Err(StalePublication)
  {
    var w := After(s, ps);
    var h := w.ever.Of(l.channel);
    AfterSound(s, ps);
    VersionsAreImmutable(s, ps, l.channel, 0, i);
    assert w.state.Of(l.channel) == Truncated(h, l.channel);
    LessAsymmetric(h[i].version.Key(), h[0].version.Key());
  }
}
