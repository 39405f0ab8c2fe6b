/** Splitting the native image around the reserved storage (release.py) and flashing the pieces with
    readback (flash.py). Digests are taken as the contents they stand for. */
module Flash {
  import opened Common

  const SECTOR := 512
  const COPY_CHUNK := 8 * 1024 * 1024
  const READBACK_CHUNK := 16 * 1024 * 1024

  const IDBLOADER := "idbloader.img"
  const UBOOT := "u-boot.itb"

  /** One entry of the manifest's segment list: what it says, and the contents of its file. */
  datatype Segment = Segment(sector: int, size: int, digest: seq<Byte>, file: seq<Byte>, place: Place)

  /** Where the file name of a manifest entry leads. */
  datatype Place = InBundle | Outside | Missing

  /** A boot component: where it is said to be in the image, and what it is said to hold. */
  datatype Component = Component(sector: int, size: int, digest: seq<Byte>)

  datatype Layout = Layout(idbloaderSector: int, ubootSector: int, partitionOffset: int)

  datatype Loader = Loader(digest: seq<Byte>, file: seq<Byte>, place: Place)

  datatype Manifest = Manifest(
    schema: int, sectorSize: int, low: int, high: int, imageSize: int, segments: seq<Segment>,
    layout: Layout, boot: map<string, Component>, loader: Loader)

  /** What a release carries besides the image. */
  datatype Parts = Parts(layout: Layout, boot: map<string, Component>, loader: seq<Byte>)

  // ----- release.py

  /** What slice_image accepts. */
  predicate Sliceable(image: seq<Byte>, start: int, length: int) {
    0 <= start && start % SECTOR == 0 && length > 0 && length % SECTOR == 0 && start + length <= |image|
  }

  function Slice(image: seq<Byte>, start: int, length: int): Segment
    requires Sliceable(image, start, length)
  {
    var data := image[start..start + length];
    Segment(start / SECTOR, length, data, data, InBundle)
  }

  /** slice_image: copies in chunks and fails when the image ends early. */
  method SliceImage(image: seq<Byte>, start: int, length: int) returns (r: Option<Segment>)
    ensures r == if Sliceable(image, start, length) then Some(Slice(image, start, length)) else None
    ensures r.Some? <==>
      0 <= start && start % 512 == 0 && length > 0 && length % 512 == 0 && start + length <= |image|
    ensures r.Some? ==>
      var data := image[start..start + length]; r.value == Segment(start / 512, length, data, data, InBundle)
  {
    if start % SECTOR != 0 || length <= 0 || length % SECTOR != 0 || start < 0 {
      return None;
    }
    var target: seq<Byte> := [];
    var left := length;
    while left != 0
      invariant 0 <= left <= length && |target| == length - left
      invariant left < length ==> start + |target| <= |image| && target == image[start..start + |target|]
      decreases left
    {
      var at := start + |target|;
      var want := if left < COPY_CHUNK then left else COPY_CHUNK;
      var have := if at >= |image| then 0 else |image| - at;
      var n := if want < have then want else have;
      if n == 0 {
        return None;
      }
      target := target + image[at..at + n];
      left := left - n;
    }
    return Some(Segment(start / SECTOR, length, target, target, InBundle));
  }

  /** The images and ranges for which flash_bundle gets as far as writing the manifest. */
  predicate Splittable(image: seq<Byte>, low: int, high: int) {
    && |image| > high * SECTOR
    && Sliceable(image, 0, low * SECTOR)
    && Sliceable(image, high * SECTOR, |image| - high * SECTOR)
  }

  function Split(image: seq<Byte>, low: int, high: int, parts: Parts): Manifest
    requires Splittable(image, low, high)
  {
    Manifest(1, SECTOR, low, high, |image|,
             [Slice(image, 0, low * SECTOR), Slice(image, high * SECTOR, |image| - high * SECTOR)],
             parts.layout, parts.boot, Loader(parts.loader, parts.loader, InBundle))
  }

  /** An image splits around a proper range if and only if it goes on behind it and is whole sectors. */
  lemma SplittableMeans(image: seq<Byte>, low: int, high: int)
    requires 0 < low < high
    ensures Splittable(image, low, high) <==> |image| > high * 512 && |image| % 512 == 0
  {
    WholeSectors(low);
    WholeSectors(high);
    SectorRemainder(|image|, high);
  }

  lemma SectorRemainder(length: int, n: int)
    ensures (length - n * 512) % 512 == length % 512
  {
    assert length == length / 512 * 512 + length % 512;
    assert length - n * 512 == (length / 512 - n) * 512 + length % 512;
  }

  /** The component's bytes are in the image at its sector, up to `limit`. */
  predicate BytesAt(image: seq<Byte>, c: Component, sector: int, limit: int) {
    && c.sector == sector >= 0 && c.size > 0 && |c.digest| == c.size
    && c.sector * 512 + c.size <= limit && c.sector * 512 + c.size <= |image|
    && forall i :: 0 <= i < c.size ==> image[c.sector * 512 + i] == c.digest[i]
  }

  /** An image boots if and only if the first stage is in it below the reserved range, and the second
      one below the first partition and off that range, each at the sector the layout names. */
  lemma BootableMeans(image: seq<Byte>, low: int, high: int, parts: Parts)
    requires 0 < low < high && |image| > high * 512
    ensures Bootable(image, low, high, parts) <==>
      && parts.boot.Keys == {"idbloader.img", "u-boot.itb"}
      && BytesAt(image, parts.boot["idbloader.img"], parts.layout.idbloaderSector, low * 512)
      && var c := parts.boot["u-boot.itb"];
         && BytesAt(image, c, parts.layout.ubootSector, parts.layout.partitionOffset)
         && (c.sector * 512 + c.size <= low * 512 || c.sector * 512 >= high * 512)
  {
    if parts.boot.Keys == {"idbloader.img", "u-boot.itb"} {
      assert IDBLOADER in parts.boot && UBOOT in parts.boot;
      assert forall name :: name in parts.boot ==> name == IDBLOADER || name == UBOOT;
      var a, b := parts.boot[IDBLOADER], parts.boot[UBOOT];
      if a.sector >= 0 && a.size > 0 && b.sector >= 0 && b.size > 0 {
        InImageMeans(image, low, high, a);
        InImageMeans(image, low, high, b);
      }
      hide InImage;
    }
  }

  lemma InImageMeans(image: seq<Byte>, low: int, high: int, c: Component)
    requires c.sector >= 0 && c.size > 0
    ensures InImage(image, low, high, c) <==>
      && c.sector * 512 + c.size <= |image| && |c.digest| == c.size
      && (c.sector * 512 + c.size <= low * 512 || c.sector * 512 >= high * 512)
      && forall i :: 0 <= i < c.size ==> image[c.sector * 512 + i] == c.digest[i]
  {
    var start := c.sector * 512;
    if start + c.size <= |image| {
      var data := image[start..start + c.size];
      assert |data| == c.size && forall i :: 0 <= i < c.size ==> data[i] == image[start + i];
    }
  }

  /** flash_bundle: a bundle is written exactly if the image splits into the two proper pieces and
      each boot component is in the image where the layout says, off the reserved range. */
  method FlashBundle(image: seq<Byte>, low: int, high: int, parts: Parts) returns (r: Option<Manifest>)
    ensures r.Some? <==> Splittable(image, low, high) && 0 < low < high && Bootable(image, low, high, parts)
    ensures r.Some? ==> r.value == Split(image, low, high, parts) && Acceptable(r.value)
  {
    if |image| <= high * SECTOR {
      return None;
    }
    var head := SliceImage(image, 0, low * SECTOR);
    var system := SliceImage(image, high * SECTOR, |image| - high * SECTOR);
    if head.None? || system.None? {
      return None;
    }
    var m := Manifest(1, SECTOR, low, high, |image|, [head.value, system.value],
                      parts.layout, parts.boot, Loader(parts.loader, parts.loader, InBundle));
    var ok := Validate(m);
    SplitAcceptable(image, low, high, parts);
    return if ok then Some(m) else None;
  }

  // ----- flash.py: validate

  /** Two segments, in either order, that cover the image and nothing of the reserved range. */
  predicate Covers(a: Segment, b: Segment, low: int, high: int, imageSize: int) {
    && a.sector == 0 && a.size == low * SECTOR
    && b.sector == high && b.size == imageSize - high * SECTOR
  }

  predicate Geometry(m: Manifest) {
    && 0 < m.low < m.high && m.imageSize > m.high * SECTOR && m.imageSize % SECTOR == 0
    && |m.segments| == 2
    && (forall s :: s in m.segments ==> s.place == InBundle && |s.file| == s.size && s.file == s.digest)
    && (Covers(m.segments[0], m.segments[1], m.low, m.high, m.imageSize) ||
        Covers(m.segments[1], m.segments[0], m.low, m.high, m.imageSize))
  }

  /** The component lies in the segment and its bytes are there. */
  predicate Carries(s: Segment, c: Component) {
    && s.sector <= c.sector && c.sector * SECTOR + c.size <= s.sector * SECTOR + s.size
    && 0 <= c.size && |s.file| == s.size
    && s.file[(c.sector - s.sector) * SECTOR..(c.sector - s.sector) * SECTOR + c.size] == c.digest
  }

  predicate Bounded(c: Component, sector: int, limit: int) {
    c.sector == sector >= 0 && c.size > 0 && c.sector * SECTOR + c.size <= limit
  }

  /** Both boot components are where the layout says, within their limits, and in a segment. */
  predicate Boots(m: Manifest) {
    && m.boot.Keys == {IDBLOADER, UBOOT}
    && Bounded(m.boot[IDBLOADER], m.layout.idbloaderSector, m.low * SECTOR)
    && Bounded(m.boot[UBOOT], m.layout.ubootSector, m.layout.partitionOffset)
    && (forall name :: name in m.boot ==> exists s :: s in m.segments && Carries(s, m.boot[name]))
  }

  predicate Acceptable(m: Manifest) {
    && m.schema == 1 && m.sectorSize == SECTOR
    && Geometry(m) && Boots(m) && m.loader.place == InBundle && m.loader.file == m.loader.digest
  }

  /** validate */
  method Validate(m: Manifest) returns (ok: bool)
    ensures ok <==> Acceptable(m)
  {
    if m.schema != 1 || m.sectorSize != SECTOR {
      return false;
    }
    ok := ValidateSegments(m);
    if !ok {
      return false;
    }
    if m.boot.Keys != {IDBLOADER, UBOOT} {
      return false;
    }
    var idbloader := ValidateComponent(m, m.boot[IDBLOADER], m.layout.idbloaderSector, m.low * SECTOR);
    var uboot := ValidateComponent(m, m.boot[UBOOT], m.layout.ubootSector, m.layout.partitionOffset);
    return idbloader && uboot && m.loader.place == InBundle && m.loader.file == m.loader.digest;
  }

  /** The geometry part: the checks of the loop accept exactly the two-piece cover. */
  method ValidateSegments(m: Manifest) returns (ok: bool)
    ensures ok <==> Geometry(m)
  {
    if !(0 < m.low < m.high) || m.imageSize <= m.high * SECTOR {
      return false;
    }
    if |m.segments| != 2 {
      return false;
    }
    var segments := if m.segments[1].sector < m.segments[0].sector
                    then [m.segments[1], m.segments[0]] else m.segments;
    PiecesMean(m, segments);
    hide Geometry, Whole;
    if segments[0].sector != 0 || segments[1].sector != m.high {
      return false;
    }
    var end := 0;
    var k := 0;
    while k < 2
      invariant 0 <= k <= 2
      invariant end == if k == 0 then 0 else segments[k - 1].sector + segments[k - 1].size / SECTOR
      invariant forall j :: 0 <= j < k ==> Whole(segments[j])
      invariant k > 0 ==> segments[0].size / SECTOR <= m.low
    {
      var item := segments[k];
      WholeMeans(item);
      if item.place != InBundle {
        return false;
      }
      if |item.file| != item.size || item.file != item.digest {
        return false;
      }
      if item.sector < end || item.size % SECTOR != 0 || item.size <= 0 {
        return false;
      }
      end := item.sector + item.size / SECTOR;
      if item.sector < m.high && end > m.low {
        return false;
      }
      k := k + 1;
    }
    return segments[0].size == m.low * SECTOR && end * SECTOR == m.imageSize;
  }

  /** A piece of whole sectors with the contents recorded for it. */
  predicate Whole(s: Segment) {
    s.place == InBundle && s.size % SECTOR == 0 && s.size > 0 && |s.file| == s.size && s.file == s.digest
  }

  lemma WholeMeans(s: Segment)
    ensures Whole(s) <==>
      s.place == InBundle && |s.file| == s.size && s.file == s.digest && s.size % SECTOR == 0 && s.size > 0
  {
  }

  /** The geometry of two pieces in the order of their sectors. */
  lemma PiecesMean(m: Manifest, segments: seq<Segment>)
    requires 0 < m.low < m.high && m.imageSize > m.high * SECTOR && |m.segments| == 2
    requires segments == if m.segments[1].sector < m.segments[0].sector
                         then [m.segments[1], m.segments[0]] else m.segments
    ensures Geometry(m) <==>
      && segments[0].sector == 0 && segments[1].sector == m.high
      && Whole(segments[0]) && Whole(segments[1])
      && segments[0].size == m.low * SECTOR
      && (segments[1].sector + segments[1].size / SECTOR) * SECTOR == m.imageSize
  {
    var a, b := segments[0], segments[1];
    assert forall s :: s in m.segments <==> s == a || s == b;
    if b.size % SECTOR == 0 {
      EndsAt(b);
      WholeSectors(b.sector + b.size / SECTOR);
    }
    WholeSectors(m.low);
    if Geometry(m) {
      assert Covers(a, b, m.low, m.high, m.imageSize);
      PairFits(a, b, m.low, m.high, m.imageSize);
    }
  }

  lemma EndsAt(s: Segment)
    requires s.size % SECTOR == 0
    ensures (s.sector + s.size / SECTOR) * SECTOR == s.sector * SECTOR + s.size
  {
    assert s.size == s.size / SECTOR * SECTOR;
  }

  /** One turn of the loop over the boot components: bounds, the first segment around it, contents. */
  method ValidateComponent(m: Manifest, c: Component, sector: int, limit: int) returns (ok: bool)
    requires Geometry(m)
    ensures ok <==> Bounded(c, sector, limit) && exists s :: s in m.segments && Carries(s, c)
  {
    var start := c.sector * SECTOR;
    if c.sector != sector || start < 0 || c.size <= 0 || start + c.size > limit {
      return false;
    }
    FilesFit(m);
    hide Geometry, Carries;
    var k := 0;
    while k < 2
      invariant 0 <= k <= 2
      invariant forall j :: 0 <= j < k ==> !Around(m.segments[j], c)
    {
      var s := m.segments[k];
      if s.sector * SECTOR <= start && start + c.size <= s.sector * SECTOR + s.size {
        CarriedOnce(m, c, k);
        SectorDifference(s, c);
        return s.file[start - s.sector * SECTOR..start - s.sector * SECTOR + c.size] == c.digest;
      }
      k := k + 1;
    }
    CarriedAround(m, c);
    return false;
  }

  /** The segment has the component's range. */
  predicate Around(s: Segment, c: Component) {
    s.sector * SECTOR <= c.sector * SECTOR && c.sector * SECTOR + c.size <= s.sector * SECTOR + s.size
  }

  lemma FilesFit(m: Manifest)
    requires Geometry(m)
    ensures |m.segments| == 2 && forall k :: 0 <= k < 2 ==> |m.segments[k].file| == m.segments[k].size
  {
    assert m.segments[0] in m.segments && m.segments[1] in m.segments;
  }

  lemma SectorDifference(s: Segment, c: Component)
    requires Around(s, c) && c.size > 0 && |s.file| == s.size
    ensures (c.sector - s.sector) * SECTOR == c.sector * SECTOR - s.sector * SECTOR
    ensures Carries(s, c) <==>
      s.file[c.sector * SECTOR - s.sector * SECTOR..c.sector * SECTOR - s.sector * SECTOR + c.size] == c.digest
  {
  }

  lemma CarriedAround(m: Manifest, c: Component)
    requires |m.segments| == 2
    ensures forall s :: s in m.segments && Carries(s, c) ==> exists j :: 0 <= j < 2 && Around(m.segments[j], c)
  {
    forall s | s in m.segments && Carries(s, c)
      ensures exists j :: 0 <= j < 2 && Around(m.segments[j], c)
    {
      var j :| 0 <= j < 2 && m.segments[j] == s;
      assert Around(m.segments[j], c);
    }
  }

  /** A component that lies in one segment is carried by no other. */
  lemma CarriedOnce(m: Manifest, c: Component, k: nat)
    requires Geometry(m) && k < 2 && c.size > 0 && Around(m.segments[k], c)
    ensures (exists s :: s in m.segments && Carries(s, c)) <==> Carries(m.segments[k], c)
  {
    SegmentsFit(m);
    assert Inside(m.segments[k], c.sector * SECTOR);
    hide Geometry;
    if s :| s in m.segments && Carries(s, c) {
      assert Inside(s, c.sector * SECTOR);
    }
  }

  /** The boot components are in the image where the layout says, off the reserved range. */
  predicate Bootable(image: seq<Byte>, low: int, high: int, parts: Parts) {
    && parts.boot.Keys == {IDBLOADER, UBOOT}
    && Bounded(parts.boot[IDBLOADER], parts.layout.idbloaderSector, low * SECTOR)
    && Bounded(parts.boot[UBOOT], parts.layout.ubootSector, parts.layout.partitionOffset)
    && (forall name :: name in parts.boot ==> InImage(image, low, high, parts.boot[name]))
  }

  predicate InImage(image: seq<Byte>, low: int, high: int, c: Component) {
    var start := c.sector * SECTOR;
    && 0 <= start <= start + c.size <= |image| && (start + c.size <= low * SECTOR || start >= high * SECTOR)
    && image[start..start + c.size] == c.digest
  }

  /** What an accepted manifest guarantees: format, loader and pieces are files of the bundle with the
      recorded contents; the first stage lies below the reserved range, the second one below the first
      partition and off that range, each with the recorded contents in one of the pieces. */
  lemma AcceptedMeans(m: Manifest)
    requires Acceptable(m)
    ensures m.schema == 1 && m.sectorSize == 512
    ensures m.loader.place == InBundle && m.loader.file == m.loader.digest
    ensures forall s :: s in m.segments ==> s.place == InBundle && s.file == s.digest && |s.file| == s.size
    ensures m.boot.Keys == {"idbloader.img", "u-boot.itb"}
    ensures var c := m.boot["idbloader.img"];
            c.sector == m.layout.idbloaderSector >= 0 && c.size > 0 && c.sector * 512 + c.size <= m.low * 512
    ensures var c := m.boot["u-boot.itb"];
            && c.sector == m.layout.ubootSector >= 0 && c.size > 0
            && c.sector * 512 + c.size <= m.layout.partitionOffset
            && (c.sector * 512 + c.size <= m.low * 512 || c.sector * 512 >= m.high * 512)
    ensures forall name :: name in m.boot ==>
              exists s :: s in m.segments && CarriesBytes(s, m.boot[name])
  {
    assert IDBLOADER in m.boot && UBOOT in m.boot;
    OffTheRange(m, m.boot[UBOOT]);
    hide Geometry;
    forall name | name in m.boot
      ensures exists s :: s in m.segments && CarriesBytes(s, m.boot[name])
    {
      var s :| s in m.segments && Carries(s, m.boot[name]);
      CarriedBytes(s, m.boot[name]);
    }
  }

  lemma CarriedBytes(s: Segment, c: Component)
    requires Carries(s, c)
    ensures CarriesBytes(s, c)
  {
    var at := (c.sector - s.sector) * 512;
    var data := s.file[at..at + c.size];
    assert forall i :: 0 <= i < c.size ==> data[i] == s.file[at + i];
  }

  /** What a piece carries does not touch the reserved range. */
  lemma OffTheRange(m: Manifest, c: Component)
    requires Geometry(m) && exists s :: s in m.segments && Carries(s, c)
    ensures c.sector * 512 + c.size <= m.low * 512 || c.sector * 512 >= m.high * 512
  {
    var s :| s in m.segments && Carries(s, c);
    assert s == m.segments[0] || s == m.segments[1];
  }

  /** Byte by byte, the component is in the piece's file. */
  predicate CarriesBytes(s: Segment, c: Component) {
    && |c.digest| == c.size
    && forall i :: 0 <= i < c.size ==>
         0 <= (c.sector - s.sector) * 512 + i < |s.file| && s.file[(c.sector - s.sector) * 512 + i] == c.digest[i]
  }

  lemma SliceOfSlice(s: seq<Byte>, lo: int, hi: int, a: int, b: int)
    requires 0 <= lo <= hi <= |s| && 0 <= a <= b <= hi - lo
    ensures s[lo..hi][a..b] == s[lo + a..lo + b]
  {
    forall i | 0 <= i < b - a
      ensures s[lo..hi][a..b][i] == s[lo + a..lo + b][i]
    {
      assert s[lo..hi][a + i] == s[lo + (a + i)];
    }
  }

  lemma SliceCarries(image: seq<Byte>, from: int, length: int, c: Component)
    requires Sliceable(image, from, length) && c.size > 0
    ensures var start := c.sector * SECTOR;
            Carries(Slice(image, from, length), c) <==>
            && from <= start && start + c.size <= from + length
            && image[start..start + c.size] == c.digest
  {
    var s, start := Slice(image, from, length), c.sector * SECTOR;
    assert s.sector * SECTOR == from;
    if from <= start && start + c.size <= from + length {
      assert (c.sector - s.sector) * SECTOR == start - from;
      SliceOfSlice(image, from, from + length, start - from, start - from + c.size);
    }
  }

  lemma SplitCarries(image: seq<Byte>, low: int, high: int, parts: Parts, c: Component)
    requires Splittable(image, low, high) && 0 < low < high && c.sector >= 0 && c.size > 0
    ensures (exists s :: s in Split(image, low, high, parts).segments && Carries(s, c))
            <==> InImage(image, low, high, c)
  {
    var m := Split(image, low, high, parts);
    SliceCarries(image, 0, low * SECTOR, c);
    SliceCarries(image, high * SECTOR, |image| - high * SECTOR, c);
    hide Carries, Slice;
    assert m.segments[0] in m.segments && m.segments[1] in m.segments;
  }

  lemma SplitGeometry(image: seq<Byte>, low: int, high: int, parts: Parts)
    requires Splittable(image, low, high)
    ensures Geometry(Split(image, low, high, parts)) <==> 0 < low < high
  {
  }

  /** The flasher's validation accepts the two pieces of a release if and only if the reserved range
      is proper and the image boots. */
  lemma SplitAcceptable(image: seq<Byte>, low: int, high: int, parts: Parts)
    requires Splittable(image, low, high)
    ensures Acceptable(Split(image, low, high, parts)) <==> 0 < low < high && Bootable(image, low, high, parts)
  {
    SplitGeometry(image, low, high, parts);
    hide Geometry, Boots, Bootable;
    if 0 < low < high { SplitBoots(image, low, high, parts); }
  }

  lemma SplitBoots(image: seq<Byte>, low: int, high: int, parts: Parts)
    requires Splittable(image, low, high) && 0 < low < high
    ensures Boots(Split(image, low, high, parts)) <==> Bootable(image, low, high, parts)
  {
    var m := Split(image, low, high, parts);
    forall name | name in parts.boot && parts.boot[name].sector >= 0 && parts.boot[name].size > 0
      ensures (exists s :: s in m.segments && Carries(s, parts.boot[name]))
              <==> InImage(image, low, high, parts.boot[name])
    {
      SplitCarries(image, low, high, parts, parts.boot[name]);
    }
    hide Carries, InImage, Splittable, Slice;
    if parts.boot.Keys == {IDBLOADER, UBOOT} {
      assert forall name :: name in parts.boot ==> name == IDBLOADER || name == UBOOT;
    }
  }

  // ----- flash.py: flash

  function Base(s: Segment): int {
    s.sector * SECTOR
  }

  /** Whether byte i of the device belongs to a segment. */
  predicate Inside(s: Segment, i: int) {
    Base(s) <= i < Base(s) + s.size
  }

  lemma SectorMath(sector: int, offset: int, size: int)
    requires offset % SECTOR == 0 && size % SECTOR == 0
    ensures (sector + offset / SECTOR) * SECTOR == sector * SECTOR + offset
    ensures (sector + offset / SECTOR + size / SECTOR) * SECTOR == sector * SECTOR + offset + size
  {
  }

  /** The first n bytes of the file are on the disk from `base` on. */
  ghost predicate Same(disk: seq<Byte>, base: int, file: seq<Byte>, n: int)
    requires 0 <= base && n <= |file| && base + n <= |disk|
  {
    forall i :: 0 <= i < n ==> disk[base + i] == file[i]
  }

  /** Comparing one chunk extends the match by that chunk, or refutes it. */
  lemma SameChunk(disk: seq<Byte>, base: int, file: seq<Byte>, offset: int, size: int)
    requires 0 <= base && 0 <= offset && 0 <= size && offset + size <= |file| && base + |file| <= |disk|
    requires Same(disk, base, file, offset)
    ensures disk[base + offset..base + offset + size] == file[offset..offset + size]
            <==> Same(disk, base, file, offset + size)
    ensures Same(disk, base, file, |file|) ==> Same(disk, base, file, offset + size)
  {
    var d, f := disk[base + offset..base + offset + size], file[offset..offset + size];
    forall i | 0 <= i < size
      ensures d[i] == disk[base + (offset + i)] && f[i] == file[offset + i]
    {
    }
    if d == f {
      forall i | 0 <= i < offset + size
        ensures disk[base + i] == file[i]
      {
        if i >= offset { assert d[i - offset] == f[i - offset]; }
      }
    }
  }

  /** Only bytes of the segment changed. */
  ghost predicate Kept(before: seq<Byte>, after: seq<Byte>, s: Segment) {
    |before| == |after| && forall i :: 0 <= i < |before| && !Inside(s, i) ==> after[i] == before[i]
  }

  ghost predicate KeptOutside(before: seq<Byte>, after: seq<Byte>, segments: seq<Segment>) {
    && |before| == |after|
    && forall i :: 0 <= i < |before| && (forall s :: s in segments ==> !Inside(s, i)) ==> after[i] == before[i]
  }

  lemma KeptCompose(m: Manifest, k: nat, a: seq<Byte>, b: seq<Byte>, c: seq<Byte>)
    requires Geometry(m) && k < 2 && KeptOutside(a, b, m.segments) && Kept(b, c, m.segments[k])
    ensures KeptOutside(a, c, m.segments)
  {
  }

  lemma KeptElsewhere(m: Manifest, before: seq<Byte>, after: seq<Byte>)
    requires Geometry(m) && Kept(before, after, m.segments[1]) && |before| >= m.imageSize
    ensures var s := m.segments[0];
            && InBounds(s, |before|) && |s.file| == s.size
            && (Same(before, Base(s), s.file, s.size) ==> Same(after, Base(s), s.file, s.size))
  {
    SegmentsFit(m);
    hide Geometry;
    var s := m.segments[0];
    forall i | Base(s) <= i < Base(s) + s.size
      ensures after[i] == before[i]
    {
      assert Inside(s, i);
    }
  }

  class Device {
    const disk: array<Byte>

    constructor (disk: array<Byte>)
      ensures this.disk == disk
    {
      this.disk := disk;
    }

    /** rkdeveloptool wl: touches only the sectors of the file. What the medium really keeps there is
        `stored`, which need not be what was written. */
    method Wl(sector: nat, ghost file: seq<Byte>, stored: seq<Byte>)
      requires |stored| == |file| && sector * SECTOR + |file| <= disk.Length
      modifies disk
      ensures forall i :: 0 <= i < disk.Length && !(sector * SECTOR <= i < sector * SECTOR + |file|) ==>
                disk[i] == old(disk[i])
      ensures forall i :: 0 <= i < |stored| ==> disk[..][sector * SECTOR + i] == stored[i]
    {
      forall i | 0 <= i < |stored| {
        disk[sector * SECTOR + i] := stored[i];
      }
    }

    /** rkdeveloptool rl */
    method Rl(sector: nat, count: nat) returns (data: seq<Byte>)
      requires (sector + count) * SECTOR <= disk.Length
      ensures data == disk[sector * SECTOR..(sector + count) * SECTOR]
    {
      data := disk[sector * SECTOR..(sector + count) * SECTOR];
    }

    /** The readback of one segment, chunk by chunk; the tool fails at the offsets in `broken`. */
    method Verify(s: Segment, broken: set<int>) returns (ok: bool)
      requires s.sector >= 0 && s.size >= 0 && s.size % SECTOR == 0 && |s.file| == s.size
      requires Base(s) + s.size <= disk.Length
      ensures ok <==> Holds(s) && !Breaks(broken, s.size)
    {
      var offset := 0;
      assert Same(disk[..], Base(s), s.file, 0) && Stop(0, s.size);
      hide Same, Breaks, Stop;
      NeverBreaks(broken);
      while offset < s.size
        invariant 0 <= offset <= s.size && Stop(offset, s.size)
        invariant Same(disk[..], Base(s), s.file, offset) && !Breaks(broken, offset)
      {
        var size := if READBACK_CHUNK < s.size - offset then READBACK_CHUNK else s.size - offset;
        NextStop(offset, size, s.size);
        BreaksNext(broken, offset, size, s.size);
        if offset in broken {
          return false;
        }
        SectorMath(s.sector, offset, size);
        var data := Rl(s.sector + offset / SECTOR, size / SECTOR);
        SameChunk(disk[..], Base(s), s.file, offset, size);
        if |data| != size || data != s.file[offset..offset + size] {
          return false;
        }
        offset := offset + size;
      }
      return true;
    }

    /** The segment is on the device. */
    ghost predicate Holds(s: Segment)
      requires 0 <= Base(s) && |s.file| == s.size && Base(s) + s.size <= disk.Length
      reads disk
    {
      Same(disk[..], Base(s), s.file, s.size)
    }

    /** One turn of the segment loop. */
    method FlashSegment(item: Segment, verifyOnly: bool, a: SegmentAnswers) returns (ok: bool)
      requires item.sector >= 0 && item.size >= 0 && item.size % SECTOR == 0
      requires |item.file| == item.size == |a.stored| && Base(item) + item.size <= disk.Length
      modifies disk
      ensures Kept(old(disk[..]), disk[..], item)
      ensures verifyOnly ==> disk[..] == old(disk[..])
      ensures ok <==> Answered(item, a, verifyOnly) && Holds(item)
      ensures !verifyOnly && Answered(item, a, verifyOnly) && a.stored == item.file ==> ok
    {
      if One(a.listed) != Some(LoaderMode) {
        return false;
      }
      if !verifyOnly {
        Wl(item.sector, item.file, a.stored);
        if !a.written {
          return false;
        }
      }
      ok := Verify(item, a.broken);
    }

    /** Device.wait: at most twenty looks at the bus. */
    method Wait(mode: Mode, looks: seq<Look>) returns (ok: bool)
      requires |looks| == ATTEMPTS
      ensures ok <==> Appears(mode, looks)
    {
      for i := 0 to ATTEMPTS
        invariant forall j :: 0 <= j < i ==> GoesOn(mode, looks[j])
      {
        if looks[i].count.None? || |looks[i].count.value| > 1 {
          return false;
        }
        if |looks[i].count.value| == 1 {
          var found := One(looks[i].again);
          if found.None? {
            return false;
          }
          if found.value == mode {
            return true;
          }
        }
      }
      return false;
    }

    /** The way into the loader, before anything is written. */
    method Prepare(verifyOnly: bool, a: Answers) returns (ok: bool)
      requires |a.toMaskrom| == |a.toLoader| == ATTEMPTS
      ensures ok <==> Prepared(verifyOnly, a)
    {
      var mode := One(a.first);
      if verifyOnly {
        return mode == Some(LoaderMode);
      }
      if mode.None? {
        return false;
      }
      if mode == Some(LoaderMode) {
        if !a.reset {
          return false;
        }
        var maskrom := Wait(MaskromMode, a.toMaskrom);
        if !maskrom {
          return false;
        }
      }
      if !a.download {
        return false;
      }
      ok := Wait(LoaderMode, a.toLoader);
    }

    /** Segment k was flashed without a failing call and is on the device. */
    ghost predicate Done(m: Manifest, a: Answers, k: nat, verifyOnly: bool)
      reads disk
    {
      && k < |m.segments| && k < |a.segments|
      && Answered(m.segments[k], a.segments[k], verifyOnly)
      && InBounds(m.segments[k], disk.Length) && |m.segments[k].file| == m.segments[k].size
      && Holds(m.segments[k])
    }

    /** flash: success is reported, and the device rebooted, if and only if every tool call succeeded,
        the device is large enough and both segments are on it in the end; when the medium keeps what
        is written, the calls suffice. Whatever happens, nothing outside the segments changes, and
        nothing at all before the capacity is confirmed. */
    method FlashRun(m: Manifest, verifyOnly: bool, a: Answers) returns (ok: bool)
      requires Acceptable(m) && Plausible(m, a, disk.Length)
      modifies disk
      ensures KeptOutside(old(disk[..]), disk[..], m.segments)
      ensures verifyOnly || !Ready(m, verifyOnly, a) ==> disk[..] == old(disk[..])
      ensures ok <==>
        Ready(m, verifyOnly, a) && (verifyOnly || Rebooted(a)) && Done(m, a, 0, verifyOnly) && Done(m, a, 1, verifyOnly)
      ensures ok ==> m.imageSize <= disk.Length && BootsFrom(m.boot, disk[..])
      ensures ok ==> EveryCallSucceeded(m, verifyOnly, a)
      ensures !verifyOnly && EveryCallSucceeded(m, verifyOnly, a) && MediumKeeps(m, a) ==> ok
    {
      SegmentsFit(m);
      hide Boots, Geometry, Answered, Same, EveryCallSucceeded;
      SuccessMeans(m, verifyOnly, a);
      ok := Prepare(verifyOnly, a);
      if !ok || a.sizes.None? || |a.sizes.value| != 1 || a.sizes.value[0] * SECTOR < m.imageSize {
        return false;
      }
      assert a.sizes.value[0] in a.sizes.value;
      ok := FlashSegments(m, verifyOnly, a);
      if ok {
        SegmentsFit(m);
        SegmentsBoot(m, disk[..]);
        ok := verifyOnly || (One(a.last).Some? && a.restart);
      }
    }

    /** The loop over the segments. */
    method FlashSegments(m: Manifest, verifyOnly: bool, a: Answers) returns (ok: bool)
      requires Geometry(m) && Plausible(m, a, disk.Length) && m.imageSize <= disk.Length
      modifies disk
      ensures KeptOutside(old(disk[..]), disk[..], m.segments)
      ensures verifyOnly ==> disk[..] == old(disk[..])
      ensures ok <==> Done(m, a, 0, verifyOnly) && Done(m, a, 1, verifyOnly)
      ensures (!verifyOnly && MediumKeeps(m, a) &&
               Answered(m.segments[0], a.segments[0], false) &&
               Answered(m.segments[1], a.segments[1], false)) ==> ok
    {
      SegmentsFit(m);
      assert KeptOutside(disk[..], disk[..], m.segments);
      hide Geometry, Kept, KeptOutside, Inside, Same, Answered;
      var k := 0;
      ok := true;
      while k < 2 && ok
        invariant 0 <= k <= 2 && (k == 0 ==> ok)
        invariant KeptOutside(old(disk[..]), disk[..], m.segments)
        invariant verifyOnly ==> disk[..] == old(disk[..])
        invariant ok && k >= 1 ==> Done(m, a, 0, verifyOnly)
        invariant ok && k == 2 ==> Done(m, a, 1, verifyOnly)
        invariant !ok ==> !Done(m, a, k - 1, verifyOnly)
        invariant !ok && !verifyOnly && MediumKeeps(m, a) ==>
                    !Answered(m.segments[k - 1], a.segments[k - 1], verifyOnly)
      {
        ghost var before := disk[..];
        ok := FlashSegment(m.segments[k], verifyOnly, a.segments[k]);
        KeptCompose(m, k, old(disk[..]), before, disk[..]);
        if k == 1 {
          KeptElsewhere(m, before, disk[..]);
        }
        k := k + 1;
      }
    }
  }

  // ----- what the tool answers

  const ATTEMPTS := 20

  datatype Mode = MaskromMode | LoaderMode

  /** One line of a device listing. */
  datatype Line = InMaskrom | InLoader | Elsewhere

  /** A listing, unless the tool fails. */
  type Listing = Option<seq<Line>>

  /** Device.one: the mode of the only device. */
  function One(l: Listing): Option<Mode> {
    if l.None? || |l.value| != 1 || l.value[0] == Elsewhere then None
    else Some(if l.value[0] == InMaskrom then MaskromMode else LoaderMode)
  }

  /** A mode is known if and only if the listing shows one device in that mode. */
  lemma OneMeans(l: Listing)
    ensures One(l).Some? <==> l == Some([InLoader]) || l == Some([InMaskrom])
    ensures One(l) == Some(LoaderMode) <==> l == Some([InLoader])
    ensures One(l) == Some(MaskromMode) <==> l == Some([InMaskrom])
  {
    if l.Some? && |l.value| == 1 { assert l.value == [l.value[0]]; }
  }

  /** One attempt of Device.wait: a listing that is counted and, if it has one device, another one. */
  datatype Look = Look(count: Listing, again: Listing)

  predicate Arrives(mode: Mode, l: Look) {
    l.count.Some? && |l.count.value| == 1 && One(l.again) == Some(mode)
  }

  /** The device is not there yet, or still in the other mode. */
  predicate GoesOn(mode: Mode, l: Look) {
    l.count.Some? && (|l.count.value| == 0 ||
                      (|l.count.value| == 1 && One(l.again).Some? && One(l.again) != Some(mode)))
  }

  predicate Appears(mode: Mode, looks: seq<Look>) {
    exists i :: 0 <= i < |looks| && Arrives(mode, looks[i]) && forall j :: 0 <= j < i ==> GoesOn(mode, looks[j])
  }

  /** A device that shows up in the mode waited for, within twenty attempts of which the earlier ones
      saw no device, ends the wait well; a failing tool or a second device ends it badly. */
  lemma WaitMeans(mode: Mode, looks: seq<Look>, i: nat)
    requires |looks| == 20 && i < 20 && forall j :: 0 <= j < i ==> looks[j].count == Some([])
    ensures forall x :: looks[i].count == Some([x]) && looks[i].again == Some([InLoader]) ==>
              (mode == LoaderMode ==> Appears(mode, looks))
    ensures forall x :: looks[i].count == Some([x]) && looks[i].again == Some([InMaskrom]) ==>
              (mode == MaskromMode ==> Appears(mode, looks))
    ensures looks[i].count.None? || |looks[i].count.value| > 1 ==> !Appears(mode, looks)
  {
    OneMeans(looks[i].again);
    forall j | 0 <= j < i ensures GoesOn(mode, looks[j]) && !Arrives(mode, looks[j]) {}
    assert Arrives(mode, looks[i]) ==> Appears(mode, looks);
    if looks[i].count.None? || |looks[i].count.value| > 1 {
      assert !GoesOn(mode, looks[i]) && !Arrives(mode, looks[i]);
    }
  }

  /** What it answers around one segment: the listing before it, whether the write succeeds, what the
      medium then keeps, and at which offsets the readback fails. */
  datatype SegmentAnswers = SegmentAnswers(listed: Listing, written: bool, stored: seq<Byte>, broken: set<int>)

  /** What it answers during one run, call by call; `sizes` are the flash sizes it reports. */
  datatype Answers = Answers(
    first: Listing, reset: bool, toMaskrom: seq<Look>, download: bool, toLoader: seq<Look>,
    sizes: Option<seq<nat>>, segments: seq<SegmentAnswers>, last: Listing, restart: bool)

  /** The loader runs: the one downloaded now, or for a readback the one that is there. */
  predicate Prepared(verifyOnly: bool, a: Answers) {
    if verifyOnly then One(a.first) == Some(LoaderMode)
    else
      && One(a.first).Some?
      && (One(a.first) == Some(LoaderMode) ==> a.reset && Appears(MaskromMode, a.toMaskrom))
      && a.download && Appears(LoaderMode, a.toLoader)
  }

  /** The answers fit the manifest, and a reported size does not exceed the device. */
  predicate Plausible(m: Manifest, a: Answers, length: nat) {
    && |a.toMaskrom| == |a.toLoader| == ATTEMPTS
    && (a.sizes.Some? ==> forall n :: n in a.sizes.value ==> n * SECTOR <= length)
    && |a.segments| == |m.segments|
    && forall k :: 0 <= k < |m.segments| ==> |a.segments[k].stored| == m.segments[k].size
  }

  predicate Ready(m: Manifest, verifyOnly: bool, a: Answers) {
    Prepared(verifyOnly, a) && a.sizes.Some? && |a.sizes.value| == 1 && a.sizes.value[0] * SECTOR >= m.imageSize
  }

  /** The medium keeps what is written. */
  predicate MediumKeeps(m: Manifest, a: Answers) {
    && |m.segments| == 2 && |a.segments| == 2
    && a.segments[0].stored == m.segments[0].file && a.segments[1].stored == m.segments[1].file
  }

  /** No read at the start of a chunk of sixteen mebibytes fails. */
  predicate ReadsWell(broken: set<int>, size: int) {
    forall o :: o in broken ==> !(0 <= o < size && o % 0x100_0000 == 0)
  }

  /** The calls that a successful run has made, with their answers. */
  predicate EveryCallSucceeded(m: Manifest, verifyOnly: bool, a: Answers) {
    && a.sizes.Some? && |a.sizes.value| == 1 && a.sizes.value[0] * 512 >= m.imageSize
    && |a.segments| == 2
    && a.segments[0].listed == Some([InLoader]) && a.segments[1].listed == Some([InLoader])
    && |m.segments| == 2
    && ReadsWell(a.segments[0].broken, m.segments[0].size) && ReadsWell(a.segments[1].broken, m.segments[1].size)
    && (if verifyOnly then a.first == Some([InLoader])
        else
          && a.download && Appears(LoaderMode, a.toLoader)
          && (a.first == Some([InMaskrom]) ||
              (a.first == Some([InLoader]) && a.reset && Appears(MaskromMode, a.toMaskrom)))
          && a.segments[0].written && a.segments[1].written
          && (a.last == Some([InLoader]) || a.last == Some([InMaskrom])) && a.restart)
  }

  lemma SuccessMeans(m: Manifest, verifyOnly: bool, a: Answers)
    requires |m.segments| == |a.segments| == 2
    ensures EveryCallSucceeded(m, verifyOnly, a) <==>
      && Ready(m, verifyOnly, a) && (verifyOnly || Rebooted(a))
      && Answered(m.segments[0], a.segments[0], verifyOnly) && Answered(m.segments[1], a.segments[1], verifyOnly)
  {
    OneMeans(a.last);
    OneMeans(a.first);
    OneMeans(a.segments[0].listed);
    OneMeans(a.segments[1].listed);
  }

  predicate Rebooted(a: Answers) {
    One(a.last).Some? && a.restart
  }

  /** Where a readback of `end` bytes may stand between two chunks. */
  predicate Stop(offset: int, end: int) {
    offset % SECTOR == 0 && (offset % READBACK_CHUNK == 0 || offset == end)
  }

  lemma NextStop(offset: int, size: int, end: int)
    requires Stop(offset, end) && 0 <= offset < end && end % SECTOR == 0
    requires size == if READBACK_CHUNK < end - offset then READBACK_CHUNK else end - offset
    ensures Stop(offset + size, end) && offset % SECTOR == 0 && size % SECTOR == 0 && offset % READBACK_CHUNK == 0
  {
  }

  /** The tool fails at the start of a chunk before `end`. */
  predicate Breaks(broken: set<int>, end: int) {
    exists o :: o in broken && 0 <= o < end && o % READBACK_CHUNK == 0
  }

  lemma NeverBreaks(broken: set<int>)
    ensures !Breaks(broken, 0)
  {
  }

  lemma BreaksNext(broken: set<int>, offset: int, size: int, end: int)
    requires 0 <= offset && offset % READBACK_CHUNK == 0 && 0 < size <= READBACK_CHUNK && offset + size <= end
    ensures Breaks(broken, offset + size) <==> Breaks(broken, offset) || offset in broken
    ensures offset in broken ==> Breaks(broken, end)
  {
    forall o | o in broken && offset <= o < offset + size && o % READBACK_CHUNK == 0
      ensures o == offset
    {
      NextChunk(offset, o);
    }
  }

  lemma NextChunk(offset: int, o: int)
    requires 0 <= offset <= o < offset + READBACK_CHUNK && offset % READBACK_CHUNK == 0 && o % READBACK_CHUNK == 0
    ensures o == offset
  {
  }

  predicate Answered(s: Segment, a: SegmentAnswers, verifyOnly: bool) {
    One(a.listed) == Some(LoaderMode) && (verifyOnly || a.written) && !Breaks(a.broken, s.size)
  }

  /** Both boot components are on the device where the layout says. */
  ghost predicate BootsFrom(boot: map<string, Component>, disk: seq<Byte>) {
    forall name :: name in boot ==>
      var c := boot[name];
      var start := c.sector * SECTOR;
      0 <= start <= start + c.size <= |disk| && disk[start..start + c.size] == c.digest
  }

  lemma SegmentsBoot(m: Manifest, disk: seq<Byte>)
    requires Acceptable(m) && m.imageSize <= |disk|
    requires forall k :: 0 <= k < 2 ==>
      && InBounds(m.segments[k], |disk|) && |m.segments[k].file| == m.segments[k].size
      && Same(disk, Base(m.segments[k]), m.segments[k].file, m.segments[k].size)
    ensures BootsFrom(m.boot, disk)
  {
    forall name | name in m.boot
      ensures var c := m.boot[name]; var start := c.sector * SECTOR;
              0 <= start <= start + c.size <= |disk| && disk[start..start + c.size] == c.digest
    {
      var c := m.boot[name];
      var s :| s in m.segments && Carries(s, c);
      var k :| 0 <= k < 2 && m.segments[k] == s;
      CarriedOnDisk(s, c, disk);
    }
  }

  lemma CarriedOnDisk(s: Segment, c: Component, disk: seq<Byte>)
    requires Carries(s, c) && InBounds(s, |disk|) && Same(disk, Base(s), s.file, s.size)
    ensures var start := c.sector * SECTOR;
            0 <= start <= start + c.size <= |disk| && disk[start..start + c.size] == c.digest
  {
    var start, at := c.sector * SECTOR, (c.sector - s.sector) * SECTOR;
    var d, f := disk[start..start + c.size], s.file[at..at + c.size];
    forall i | 0 <= i < c.size
      ensures d[i] == f[i]
    {
      assert disk[Base(s) + (at + i)] == s.file[at + i];
    }
  }

  predicate InBounds(s: Segment, length: nat) {
    0 <= Base(s) <= Base(s) + s.size <= length
  }

  lemma SegmentsFit(m: Manifest)
    requires Geometry(m)
    ensures |m.segments| == 2
    ensures forall k :: 0 <= k < 2 ==>
      && m.segments[k].sector >= 0 && m.segments[k].size > 0 && m.segments[k].size % SECTOR == 0
      && |m.segments[k].file| == m.segments[k].size && InBounds(m.segments[k], m.imageSize)
    ensures forall i :: !(Inside(m.segments[0], i) && Inside(m.segments[1], i))
  {
    var a, b := m.segments[0], m.segments[1];
    assert a in m.segments && b in m.segments;
    if Covers(a, b, m.low, m.high, m.imageSize) {
      PairFits(a, b, m.low, m.high, m.imageSize);
    } else {
      PairFits(b, a, m.low, m.high, m.imageSize);
    }
    hide Covers, Inside, InBounds;
  }

  lemma PairFits(a: Segment, b: Segment, low: int, high: int, imageSize: int)
    requires Covers(a, b, low, high, imageSize) && 0 < low < high
    requires imageSize > high * SECTOR && imageSize % SECTOR == 0
    ensures a.sector >= 0 && a.size > 0 && a.size % SECTOR == 0 && InBounds(a, imageSize)
    ensures b.sector >= 0 && b.size > 0 && b.size % SECTOR == 0 && InBounds(b, imageSize)
    ensures forall i :: !(Inside(a, i) && Inside(b, i)) && !(Inside(b, i) && Inside(a, i))
  {
    WholeSectors(low);
    WholeSectors(high);
    assert b.size % SECTOR == 0 by {
      assert imageSize == imageSize / SECTOR * SECTOR;
      WholeSectors(imageSize / SECTOR - high);
    }
  }

  lemma WholeSectors(n: int)
    ensures n * SECTOR % SECTOR == 0
  {
  }

  /** The reserved range and everything past the image are as they were. */
  ghost predicate Spared(before: seq<Byte>, after: seq<Byte>, image: seq<Byte>, low: int, high: int) {
    && |before| == |after|
    && forall i :: 0 <= i < |after| && (low * SECTOR <= i < high * SECTOR || i >= |image|) ==> after[i] == before[i]
  }

  /** Outside the reserved range the disk is the image. */
  ghost predicate HoldsImage(disk: seq<Byte>, image: seq<Byte>, low: int, high: int) {
    && |image| <= |disk|
    && forall i :: 0 <= i < |image| && !(low * SECTOR <= i < high * SECTOR) ==> disk[i] == image[i]
  }

  /** Bundling an image and flashing it: when the flasher reports success the device equals the image
      outside the reserved range, boot components included, and the reserved range and everything past
      the image are untouched. */
  method BundleAndFlash(image: seq<Byte>, low: int, high: int, parts: Parts, device: Device, a: Answers)
    returns (ok: bool)
    requires a.sizes.Some? ==> forall n :: n in a.sizes.value ==> n * SECTOR <= device.disk.Length
    requires |a.toMaskrom| == |a.toLoader| == ATTEMPTS && |a.segments| == 2
    requires Splittable(image, low, high) ==>
      |a.segments[0].stored| == low * SECTOR && |a.segments[1].stored| == |image| - high * SECTOR
    modifies device.disk
    ensures Spared(old(device.disk[..]), device.disk[..], image, low, high)
    ensures ok ==> HoldsImage(device.disk[..], image, low, high)
    ensures ok ==> BootsFrom(parts.boot, device.disk[..])
  {
    var bundle := FlashBundle(image, low, high, parts);
    if bundle.None? {
      return false;
    }
    var m := bundle.value;
    hide Acceptable, KeptOutside, BootsFrom, Answered, Same, Spared, HoldsImage;
    ok := device.FlashRun(m, false, a);
    PiecesAreOutside(image, low, high, parts, old(device.disk[..]), device.disk[..]);
    if ok {
      PiecesMakeImage(image, low, high, parts, device.disk[..]);
    }
  }

  lemma PiecesAreOutside(image: seq<Byte>, low: int, high: int, parts: Parts, before: seq<Byte>, after: seq<Byte>)
    requires Splittable(image, low, high) && 0 < low < high
    requires KeptOutside(before, after, Split(image, low, high, parts).segments)
    ensures Spared(before, after, image, low, high)
  {
  }

  /** With both pieces on the disk the disk agrees with the image outside the reserved range. */
  lemma PiecesMakeImage(image: seq<Byte>, low: int, high: int, parts: Parts, disk: seq<Byte>)
    requires Splittable(image, low, high) && 0 < low < high && |image| <= |disk|
    requires var s := Split(image, low, high, parts).segments[0]; Same(disk, Base(s), s.file, s.size)
    requires var s := Split(image, low, high, parts).segments[1]; Same(disk, Base(s), s.file, s.size)
    ensures HoldsImage(disk, image, low, high)
  {
    var m := Split(image, low, high, parts);
    var a, b := m.segments[0], m.segments[1];
    forall i | 0 <= i < |image| && !(low * SECTOR <= i < high * SECTOR)
      ensures disk[i] == image[i]
    {
      if i < low * SECTOR {
        assert disk[Base(a) + i] == a.file[i];
      } else {
        assert disk[Base(b) + (i - high * SECTOR)] == b.file[i - high * SECTOR];
      }
    }
  }
}
