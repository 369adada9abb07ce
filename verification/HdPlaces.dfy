/**
  Partitions of genimage's image-hd.c and their places: what makes a layout sound, and the rule for the
  place and size of an entry.  Offsets and sizes are natural numbers: 64-bit overflow is assumed not to
  happen, except in roundup(0, align).
 */
module HdPlaces {
  import opened Common
  import opened GenimageFile

  /** What setup reads of the image placed in a partition. */
  datatype Child = Child(size: nat, holes: seq<Extent>)

  datatype Kind = User | ExtendedTable | Mbr | GptHeader | GptArray | GptBackup

  /** What an entry is; setup does not change it. */
  datatype Entry = Entry(
    kind: Kind, forcedPrimary: bool, autoresize: bool, fill: bool, partitionType: nat, image: Option<string>)

  datatype Part = Part(e: Entry, offset: nat, size: nat, align: nat, inTable: bool, logical: bool)
  {
    /** partition_end. */
    function End(): nat { offset + size }
  }

  datatype TableType = NoTable | MbrTable | GptTable | HybridTable

  datatype Config = Config(
    tableType: TableType, align: nat, extendedIndex: nat, gptLocation: nat, gptNoBackup: bool, fill: bool,
    images: map<string, Child>)

  const GPT_SECTORS: nat := 1 + 128 * 128 / 512

  const TYPE_EXTENDED: nat := 0x0F

  predicate HasMbr(t: TableType) { t == MbrTable || t == HybridTable }

  predicate HasGpt(t: TableType) { t == GptTable || t == HybridTable }

  /** roundup, with the wrap-around of `value - 1` for zero. */
  function RoundUp(value: nat, align: nat): nat
    requires align > 0
  {
    if value == 0 then (0xFFFF_FFFF_FFFF_FFFF / align + 1) * align % 0x1_0000_0000_0000_0000
    else ((value - 1) / align + 1) * align
  }

  /** rounddown. */
  function RoundDown(value: nat, align: nat): nat
    requires align > 0
  {
    value - value % align
  }

  function Max(a: nat, b: nat): nat { if a > b then a else b }

  lemma RoundUpLeast(value: nat, align: nat)
    requires value > 0 && align > 0
    ensures value <= RoundUp(value, align) < value + align
  {
    var q, r := (value - 1) / align, (value - 1) % align;
    assert value - 1 == q * align + r;
    assert (q + 1) * align == q * align + align;
  }

  /** p and q share no byte (as check_overlap tests it). */
  predicate Apart(p: Part, q: Part) {
    p.offset >= q.End() || q.offset >= p.End()
  }

  /** image_has_hole_covering, for the overlap of p with the earlier q. */
  predicate HoleCovers(images: map<string, Child>, q: Part, p: Part) {
    q.e.image.Some? && q.e.image.value in images &&
    var from := (if p.offset > q.offset then p.offset else q.offset) - q.offset;
    var to := (if p.End() < q.End() then p.End() else q.End()) - q.offset;
    exists i :: 0 <= i < |images[q.e.image.value].holes| &&
      images[q.e.image.value].holes[i].start <= from && to <= images[q.e.image.value].holes[i].end
  }

  /** p shares no byte with the range [lo, hi). */
  predicate ApartFrom(p: Part, lo: int, hi: int) {
    p.offset >= hi || lo >= p.End()
  }

  /** fake_partition: an entry that reserves space. */
  function Fake(kind: Kind, offset: nat, size: nat): Part {
    Part(Entry(kind, false, false, false, 0, None), offset, size, 1, false, false)
  }

  /** A difference of two unsigned 64-bit numbers. */
  function Sub64(a: nat, b: nat): nat {
    if b <= a then a - b else (a - b) % 0x1_0000_0000_0000_0000
  }

  /** Entries i and j may share bytes only where a hole of the earlier one's image covers them. */
  predicate Separate(c: Config, ps: seq<Part>, i: nat, j: nat)
    requires i < |ps| && j < |ps|
  {
    Apart(ps[j], ps[i]) || HoleCovers(c.images, ps[i], ps[j])
  }

  /** The area before the logical entry l, which holds its boot record, shares no byte with entry i. */
  predicate GapFree(align: nat, ps: seq<Part>, i: nat, l: nat)
    requires i < |ps| && l < |ps|
  {
    ApartFrom(ps[i], ps[l].offset - align, ps[l].offset)
  }

  predicate Sound(p: Part, now: nat) {
    && p.align > 0 && p.offset % p.align == 0 && p.End() <= now
    && (p.e.kind != ExtendedTable ==> p.size > 0)
  }

  /** The extended partition contains the logical one and its boot record. */
  predicate Contains(align: nat, ext: Part, l: Part) {
    ext.offset + align <= l.offset && l.End() <= ext.End()
  }

  /** The first k entries are placed, all of them below now; ext is the index of [Extended]. */
  ghost predicate Placed(c: Config, align: nat, ext: Option<nat>, ps: seq<Part>, k: nat, now: nat) {
    && k <= |ps| && (ext.Some? ==> ext.value < |ps|)
    && (forall i :: 0 <= i < k ==> Sound(ps[i], now))
    && (forall i, j :: 0 <= i < j < k && ps[i].e.kind != ExtendedTable && ps[j].e.kind != ExtendedTable ==>
          Separate(c, ps, i, j))
    && (forall l :: 0 <= l < k && ps[l].logical && ext.Some? ==> Contains(align, ps[ext.value], ps[l]))
    && (forall i, l :: 0 <= i < k && 0 <= l < k && i != l && ps[l].logical && ps[i].e.kind != ExtendedTable ==>
          GapFree(align, ps, i, l))
    && (forall l, m :: 0 <= l < m < k && ps[l].logical && ps[m].logical ==> ps[l].End() + align <= ps[m].offset)
  }

  /** Only entries behind the extended partition are logical. */
  ghost predicate Shaped(c: Config, ext: Option<nat>, ps: seq<Part>) {
    && (ext.Some? ==>
          && c.tableType == MbrTable && ext.value < |ps|
          && ps[ext.value].e.kind == ExtendedTable && ps[ext.value].e.image == None && !ps[ext.value].logical
          && !ps[ext.value].e.autoresize)
    && (forall i :: 0 <= i < |ps| && ps[i].e.kind == ExtendedTable ==> ext == Some(i))
    && (forall i :: 0 <= i < |ps| && ps[i].logical ==> ext.Some? && ext.value < i)
  }

  /** Placement and sizing keep what an entry is. */
  predicate SameEntry(p: Part, q: Part) {
    q.e == p.e && q.logical == p.logical
  }

  /** An explicit offset or size is honoured; only an autoresize entry may grow. */
  predicate Configured(p: Part, q: Part) {
    && SameEntry(p, q)
    && (p.offset != 0 ==> q.offset == p.offset)
    && (p.size != 0 ==> q.size >= p.size && (!p.e.autoresize ==> q.size == p.size))
  }

  /** Entries keep their identity, and the ones from `from` up to `to` what was configured explicitly. */
  ghost predicate KeptParts(ext: Option<nat>, before: seq<Part>, after: seq<Part>, from: nat, to: nat) {
    |after| == |before| && forall j :: 0 <= j < |after| ==>
      if ext == Some(j) then SameEntry(before[j], after[j])
      else if from <= j < to then Configured(before[j], after[j])
      else after[j] == before[j]
  }

  lemma KeptMore(ext: Option<nat>, before: seq<Part>, ps: seq<Part>, qs: seq<Part>, i: nat)
    requires KeptParts(ext, before, ps, 0, i) && KeptParts(ext, ps, qs, i, i + 1)
    ensures KeptParts(ext, before, qs, 0, i + 1)
  {}

  /** With a partition table, which entries are in it does not change. */
  ghost predicate SameInTable(c: Config, before: seq<Part>, after: seq<Part>) {
    && |after| == |before|
    && (c.tableType != NoTable ==> forall j :: 0 <= j < |after| ==> after[j].inTable == before[j].inTable)
  }

  /** The reserved area of the backup partition table. */
  predicate Backup(p: Part) {
    p.e.kind == GptBackup && p.e.image == None && !p.e.autoresize && !p.logical
  }

  /** Changing the entry to be placed next does not matter to the ones before it. */
  lemma StaysPlaced(c: Config, align: nat, ext: Option<nat>, ps: seq<Part>, qs: seq<Part>, i: nat, now: nat)
    requires Shaped(c, ext, ps) && i < |ps| == |qs| && Placed(c, align, ext, ps, i, now)
    requires qs == ps[i := qs[i]] && SameEntry(ps[i], qs[i])
    ensures Shaped(c, ext, qs) && Placed(c, align, ext, qs, i, now)
  {
    forall a, b | 0 <= a < b < i && qs[a].e.kind != ExtendedTable && qs[b].e.kind != ExtendedTable
      ensures Separate(c, qs, a, b)
    {
      assert Separate(c, ps, a, b);
    }
    forall a, l | 0 <= a < i && 0 <= l < i && a != l && qs[l].logical && qs[a].e.kind != ExtendedTable
      ensures GapFree(align, qs, a, l)
    {
      assert GapFree(align, ps, a, l);
    }
  }

  /** The entry's image exists, fits into it, and lies below the given end of the output file. */
  predicate Fits(c: Config, p: Part, file: nat) {
    p.e.image.Some? ==>
      && p.e.image.value in c.images && c.images[p.e.image.value].size <= p.size
      && p.offset + c.images[p.e.image.value].size <= file
  }

  /** The output file reaches behind the images and boot records of the first k entries. */
  ghost predicate FileCovers(c: Config, align: nat, ps: seq<Part>, k: nat, file: nat) {
    forall j :: 0 <= j < k && j < |ps| ==>
      Fits(c, ps[j], file) && (ps[j].logical ==> ps[j].offset - align + 512 <= file)
  }

  /** An output file of this length ends with the image or the boot record of the entry. */
  predicate ReachedBy(c: Config, align: nat, p: Part, file: nat) {
    || (p.e.image.Some? && p.e.image.value in c.images && file == p.offset + c.images[p.e.image.value].size)
    || (p.logical && file == p.offset - align + 512)
  }

  /** The length is the initial one, or one of the first k entries accounts for it. */
  ghost predicate Reaches(c: Config, align: nat, ps: seq<Part>, k: nat, initial: nat, file: nat) {
    file == initial || exists j :: 0 <= j < k && j < |ps| && ReachedBy(c, align, ps[j], file)
  }

  lemma ReachesMore(
    c: Config, align: nat, ext: Option<nat>, ps: seq<Part>, qs: seq<Part>, i: nat, initial: nat, file: nat, next: nat)
    requires Shaped(c, ext, ps) && KeptParts(ext, ps, qs, i, i + 1) && i < |ps|
    requires Reaches(c, align, ps, i, initial, file)
    requires next == file || ReachedBy(c, align, qs[i], next)
    ensures Reaches(c, align, qs, i + 1, initial, next)
  {
    if next == file != initial {
      var j :| 0 <= j < i && ReachedBy(c, align, ps[j], file);
      assert ReachedBy(c, align, qs[j], file);
    }
  }

  /** An output file as long as the image reaches behind everything. */
  lemma FileCoversImage(c: Config, align: nat, ext: Option<nat>, ps: seq<Part>, file: nat, size: nat)
    requires align > 0 && (c.tableType != NoTable ==> align % 512 == 0)
    requires Shaped(c, ext, ps) && Placed(c, align, ext, ps, |ps|, size)
    requires FileCovers(c, align, ps, |ps|, file)
    ensures FileCovers(c, align, ps, |ps|, size)
  {
    forall j | 0 <= j < |ps|
      ensures Fits(c, ps[j], size) && (ps[j].logical ==> ps[j].offset - align + 512 <= size)
    {
      assert Sound(ps[j], size) && Fits(c, ps[j], file);
    }
  }

  lemma PlacedMonotone(c: Config, align: nat, ext: Option<nat>, ps: seq<Part>, k: nat, now: nat, m: nat)
    requires Placed(c, align, ext, ps, k, now) && now <= m
    ensures Placed(c, align, ext, ps, k, m)
  {}

  /** A primary entry that passes check_overlap extends the layout. */
  lemma PlacePrimary(c: Config, align: nat, ext: Option<nat>, ps: seq<Part>, i: nat, now: nat, next: nat)
    requires Shaped(c, ext, ps) && i < |ps| && Placed(c, align, ext, ps, i, now) && now <= next
    requires !ps[i].logical && Sound(ps[i], next)
    requires forall q :: 0 <= q < i ==> Separate(c, ps, q, i)
    ensures Placed(c, align, ext, ps, i + 1, next)
  {
    forall j | 0 <= j < i + 1
      ensures Sound(ps[j], next)
    {
      assert j < i ==> Sound(ps[j], now);
    }
    forall a, b | 0 <= a < b < i + 1 && ps[a].e.kind != ExtendedTable && ps[b].e.kind != ExtendedTable
      ensures Separate(c, ps, a, b)
    {
      assert b == i ==> Separate(c, ps, a, i);
    }
    forall a, l | 0 <= a < i + 1 && 0 <= l < i + 1 && a != l && ps[l].logical && ps[a].e.kind != ExtendedTable
      ensures GapFree(align, ps, a, l)
    {
      PrimaryGap(c, align, ext, ps, i, now, a, l);
    }
  }

  lemma PrimaryGap(c: Config, align: nat, ext: Option<nat>, ps: seq<Part>, i: nat, now: nat, a: nat, l: nat)
    requires Shaped(c, ext, ps) && i < |ps| && Placed(c, align, ext, ps, i, now) && !ps[i].logical
    requires forall q :: 0 <= q < i ==> Separate(c, ps, q, i)
    requires a <= i && l <= i && a != l && ps[l].logical && ps[a].e.kind != ExtendedTable
    ensures GapFree(align, ps, a, l)
  {
    if a == i {
      assert Separate(c, ps, ext.value, i) && Contains(align, ps[ext.value], ps[l]);
    } else {
      assert GapFree(align, ps, a, l);
    }
  }

  /** A logical entry starts behind everything placed so far, with room for its boot record. */
  ghost predicate LogicalNext(
    c: Config, align: nat, ext: Option<nat>, ps: seq<Part>, i: nat, now: nat, qs: seq<Part>)
  {
    && Shaped(c, ext, ps) && i < |ps| && Placed(c, align, ext, ps, i, now)
    && ps[i].logical && now + align <= ps[i].offset && Sound(ps[i], ps[i].End())
    && qs == ps[ext.value := ps[ext.value].(size := ps[i].End() - ps[ext.value].offset)]
  }

  lemma PlaceLogical(c: Config, align: nat, ext: Option<nat>, ps: seq<Part>, i: nat, now: nat, qs: seq<Part>)
    requires LogicalNext(c, align, ext, ps, i, now, qs)
    ensures Placed(c, align, ext, qs, i + 1, ps[i].End())
  {
    forall j | 0 <= j < i + 1
      ensures Sound(qs[j], ps[i].End())
    {
      LogicalSound(c, align, ext, ps, i, now, qs, j);
    }
    forall a, b | 0 <= a < b < i + 1 && qs[a].e.kind != ExtendedTable && qs[b].e.kind != ExtendedTable
      ensures Separate(c, qs, a, b)
    {
      LogicalSeparate(c, align, ext, ps, i, now, qs, a, b);
    }
    forall l | 0 <= l < i + 1 && qs[l].logical
      ensures Contains(align, qs[ext.value], qs[l])
    {
      LogicalContains(c, align, ext, ps, i, now, qs, l);
    }
    forall a, l | 0 <= a < i + 1 && 0 <= l < i + 1 && a != l && qs[l].logical && qs[a].e.kind != ExtendedTable
      ensures GapFree(align, qs, a, l)
    {
      LogicalGap(c, align, ext, ps, i, now, qs, a, l);
    }
    forall l, m | 0 <= l < m < i + 1 && qs[l].logical && qs[m].logical
      ensures qs[l].End() + align <= qs[m].offset
    {
      LogicalSound(c, align, ext, ps, i, now, qs, l);
    }
  }

  lemma LogicalSound(
    c: Config, align: nat, ext: Option<nat>, ps: seq<Part>, i: nat, now: nat, qs: seq<Part>, j: nat)
    requires LogicalNext(c, align, ext, ps, i, now, qs) && j <= i
    ensures Sound(qs[j], ps[i].End()) && (j < i && j != ext.value ==> qs[j] == ps[j] && qs[j].End() <= now)
  {
    assert Sound(ps[ext.value], now);
    assert j < i ==> Sound(ps[j], now);
  }

  lemma LogicalSeparate(
    c: Config, align: nat, ext: Option<nat>, ps: seq<Part>, i: nat, now: nat, qs: seq<Part>, a: nat, b: nat)
    requires LogicalNext(c, align, ext, ps, i, now, qs) && a < b <= i
    requires qs[a].e.kind != ExtendedTable && qs[b].e.kind != ExtendedTable
    ensures Separate(c, qs, a, b)
  {
    LogicalSound(c, align, ext, ps, i, now, qs, a);
    assert b < i ==> Separate(c, ps, a, b);
  }

  lemma LogicalContains(
    c: Config, align: nat, ext: Option<nat>, ps: seq<Part>, i: nat, now: nat, qs: seq<Part>, l: nat)
    requires LogicalNext(c, align, ext, ps, i, now, qs) && l <= i && qs[l].logical
    ensures Contains(align, qs[ext.value], qs[l])
  {
    LogicalSound(c, align, ext, ps, i, now, qs, l);
    assert Sound(ps[ext.value], now);
    assert l < i ==> Contains(align, ps[ext.value], ps[l]);
  }

  lemma LogicalGap(
    c: Config, align: nat, ext: Option<nat>, ps: seq<Part>, i: nat, now: nat, qs: seq<Part>, a: nat, l: nat)
    requires LogicalNext(c, align, ext, ps, i, now, qs) && a <= i && l <= i && a != l
    requires qs[l].logical && qs[a].e.kind != ExtendedTable
    ensures GapFree(align, qs, a, l)
  {
    LogicalSound(c, align, ext, ps, i, now, qs, a);
    LogicalSound(c, align, ext, ps, i, now, qs, l);
    assert a < i && l < i ==> GapFree(align, ps, a, l);
  }

  predicate IsArea(p: Part, kind: Kind, offset: nat, size: nat) {
    p.e.kind == kind && p.offset == offset && p.size == size && p.e.image == None && !p.logical
  }

  function CountHybrid(ps: seq<Part>): nat {
    if ps == [] then 0
    else
      var p := ps[|ps| - 1];
      CountHybrid(ps[..|ps| - 1]) + if p.inTable && p.e.partitionType != 0 then 1 else 0
  }

  // ---------------------------------------------------------------- the rule for places and sizes

  /** x is the least multiple of a that is not below lo. */
  predicate Least(x: int, a: nat, lo: int)
    requires a > 0
  {
    x % a == 0 && lo <= x < lo + a
  }

  lemma LeastUnique(x: int, y: int, a: nat, lo: int)
    requires a > 0 && Least(x, a, lo) && Least(y, a, lo)
    ensures x == y
  {
    var p, q := x / a, y / a;
    assert x == a * p && y == a * q;
    if p < q {
      Steps(a, p, q);
    } else if q < p {
      Steps(a, q, p);
    }
  }

  lemma Steps(a: nat, p: int, q: int)
    requires p < q
    ensures a * p + a <= a * q
  {
    assert a * (p + 1) == a * p + a;
    Grows(a, p + 1, q);
  }

  lemma Grows(a: nat, p: int, q: int)
    requires p <= q
    ensures a * p <= a * q
  {
  }

  lemma MultipleMod(k: nat, a: nat)
    requires a > 0
    ensures k * a % a == 0
  {
    var q, r := k * a / a, k * a % a;
    assert k * a == a * q + r;
    if q < k {
      Steps(a, q, k);
    } else if k < q {
      Steps(a, k, q);
    }
  }

  /** roundup gives the least multiple, for anything but zero. */
  lemma RoundUpIsLeast(value: nat, align: nat)
    requires value > 0 && align > 0
    ensures Least(RoundUp(value, align), align, value)
  {
    RoundUpLeast(value, align);
    MultipleMod((value - 1) / align + 1, align);
  }

  const TWO64: nat := 0x1_0000_0000_0000_0000

  lemma RoundDownMultiple(value: nat, align: nat)
    requires align > 0
    ensures RoundDown(value, align) % align == 0 && RoundDown(value, align) <= value < RoundDown(value, align) + align
  {
    assert value == align * (value / align) + value % align;
    MultipleMod(value / align, align);
  }

  /** Zero wraps around: to zero, if the alignment divides 2^64. */
  lemma RoundUpZero(align: nat)
    requires align > 0
    ensures RoundUp(0, align) < align
    ensures align <= TWO64 ==> (RoundUp(0, align) + TWO64) % align == 0
    ensures RoundUp(0, align) % align == 0 ==> RoundUp(0, align) == 0
    ensures TWO64 % align == 0 ==> RoundUp(0, align) == 0
  {
    var q := (TWO64 - 1) / align;
    ZeroFacts(align, q, (q + 1) * align, RoundUp(0, align));
  }

  lemma ZeroFacts(align: nat, q: nat, m: nat, r: nat)
    requires align > 0 && q == (TWO64 - 1) / align && m == (q + 1) * align && r == m % TWO64
    ensures r < align && (align <= TWO64 ==> (r + TWO64) % align == 0)
    ensures r % align == 0 || TWO64 % align == 0 ==> r == 0
  {
    if align <= TWO64 {
      NextMultiple(align, q, m);
      WrappedMultiple(align, m, r);
    } else {
      HugeAlign(align, q, m);
    }
    if r % align == 0 {
      BelowAlign(r, align);
    }
  }

  lemma BelowAlign(x: nat, align: nat)
    requires align > 0 && x < align && x % align == 0
    ensures x == 0
  {
    LeastUnique(x, 0, align, 0);
  }

  lemma HugeAlign(align: nat, q: nat, m: nat)
    requires align > TWO64 && q == (TWO64 - 1) / align && m == (q + 1) * align
    ensures m % TWO64 < align && TWO64 % align != 0
  {
    if TWO64 % align == 0 {
      BelowAlign(TWO64, align);
    }
  }

  lemma WrappedMultiple(align: nat, m: nat, r: nat)
    requires 0 < align <= TWO64 && m == r + TWO64 && m % align == 0 && r < align
    ensures (r + TWO64) % align == 0 && (TWO64 % align == 0 ==> r == 0)
  {
    if TWO64 % align == 0 {
      ExactMultiple(align, m);
    }
  }

  /** The multiple of the alignment above 2^64 - 1. */
  lemma NextMultiple(align: nat, q: nat, m: nat)
    requires 0 < align <= TWO64 && q == (TWO64 - 1) / align && m == (q + 1) * align
    ensures TWO64 <= m < TWO64 + align && m % TWO64 == m - TWO64 && m % align == 0
  {
    assert TWO64 - 1 == align * q + (TWO64 - 1) % align;
    assert m == align * q + align;
    MultipleMod(q + 1, align);
  }

  lemma ExactMultiple(align: nat, m: nat)
    requires align > 0 && TWO64 % align == 0 && m % align == 0 && TWO64 <= m < TWO64 + align
    ensures m == TWO64
  {
    LeastUnique(m, TWO64, align, TWO64);
  }

  /** Where entry j ends for the entries behind it: [Extended] grows only with its logical entries. */
  function EndSeen(ext: Option<nat>, ps: seq<Part>, j: nat): nat
    requires j < |ps|
  {
    if ext == Some(j) then ps[j].offset else ps[j].End()
  }

  /** Where everything placed before entry i ends. */
  function Frontier(start: nat, ext: Option<nat>, ps: seq<Part>, i: nat): nat
    requires i <= |ps|
  {
    if i == 0 then start else Max(Frontier(start, ext, ps, i - 1), EndSeen(ext, ps, i - 1))
  }

  /** That is behind all of it, and where something of it ends, or where placement starts. */
  lemma {:induction false} FrontierIsEnd(start: nat, ext: Option<nat>, ps: seq<Part>, i: nat)
    requires i <= |ps|
    ensures start <= Frontier(start, ext, ps, i)
    ensures forall j :: 0 <= j < i ==> EndSeen(ext, ps, j) <= Frontier(start, ext, ps, i)
    ensures var r := Frontier(start, ext, ps, i);
            r == start || exists j :: 0 <= j < i && r == EndSeen(ext, ps, j)
  {
    if i > 0 {
      FrontierIsEnd(start, ext, ps, i - 1);
    }
  }

  /**
    The place of an entry p as it is configured, given where everything before it ends.  A configured
    offset is kept.  Otherwise an entry of the table, and every entry where there is no table, starts at
    the least multiple of its alignment behind that, with room for the boot record of a logical entry;
    the backup of the partition table ends at the least 4 KiB boundary that leaves room for it.
   */
  predicate Positioned(c: Config, default: nat, p: Part, q: Part, now: nat)
    requires q.align > 0
  {
    var counts := p.inTable || c.tableType == NoTable;
    && q.align == (if p.align != 0 then p.align else if counts then default else 1)
    && q.inTable == (p.inTable && c.tableType != NoTable) && q.offset % q.align == 0
    && (p.offset != 0 ==> q.offset == p.offset)
    && (p.offset == 0 && counts && p.e.kind != GptBackup ==>
          Least(q.offset, q.align, now + if p.logical then default else 0))
    && (p.offset == 0 && !counts && p.e.kind != GptBackup ==> q.offset == 0)
    && (p.offset == 0 && !counts && p.e.kind == GptBackup && !p.logical ==>
          Least(q.offset + p.size, 4096, now + p.size))
  }

  /** What hdimage_setup computes for that. */
  function PlaceOf(c: Config, default: nat, p: Part, now: nat): Part
    requires default > 0
  {
    var counts := p.inTable || c.tableType == NoTable;
    var align := if p.align != 0 then p.align else if counts then default else 1;
    var room := if p.logical then RoundUp(now + default, align) else now;
    var backup := p.e.kind == GptBackup && p.offset == 0;
    var next := if backup then room + p.size else room;
    var offset := if backup then BackupOffset(next, p.size) else p.offset;
    p.(inTable := p.inTable && c.tableType != NoTable, align := align,
       offset := if offset == 0 && counts then RoundUp(next, align) else offset)
  }

  /** The position up to which nothing else may be placed then. */
  function RoomOf(c: Config, default: nat, p: Part, now: nat): nat
    requires default > 0
  {
    var align := PlaceOf(c, default, p, now).align;
    var room := if p.logical then RoundUp(now + default, align) else now;
    if p.e.kind == GptBackup && p.offset == 0 then room + p.size else room
  }

  lemma RoomFacts(c: Config, default: nat, p: Part, now: nat)
    requires default > 0
    ensures var room, q := RoomOf(c, default, p, now), PlaceOf(c, default, p, now);
            && now <= room && (p.logical ==> room >= now + default)
            && (room == now || p.logical || room <= q.offset + p.size)
  {
    var q := PlaceOf(c, default, p, now);
    if p.logical {
      RoundUpLeast(now + default, q.align);
    } else {
      BackupLeast(now, p.size);
      if now + p.size > 0 && q.align > 0 {
        RoundUpLeast(now + p.size, q.align);
      }
    }
  }

  /** The place of a backup of this size that ends at a 4 KiB boundary. */
  function BackupOffset(end: nat, size: nat): nat {
    var boundary := RoundUp(end, 4096);
    if boundary < size then 0 else boundary - size
  }

  lemma BackupLeast(now: nat, size: nat)
    ensures Least(BackupOffset(now + size, size) + size, 4096, now + size)
  {
    if now + size > 0 {
      RoundUpIsLeast(now + size, 4096);
    } else {
      RoundUpZero(4096);
    }
  }

  lemma RoundLeast(value: nat, align: nat)
    requires align > 0 && RoundUp(value, align) % align == 0
    ensures Least(RoundUp(value, align), align, value)
  {
    if value > 0 {
      RoundUpIsLeast(value, align);
    } else {
      RoundUpZero(align);
    }
  }

  /** Rounding twice is rounding once. */
  lemma RoundTwice(value: nat, align: nat)
    requires value > 0 && align > 0
    ensures Least(RoundUp(RoundUp(value, align), align), align, value)
  {
    RoundUpIsLeast(value, align);
    RoundUpIsLeast(RoundUp(value, align), align);
    LeastUnique(RoundUp(value, align), RoundUp(RoundUp(value, align), align), align, RoundUp(value, align));
  }

  /** An aligned place is the one of the rule. */
  lemma PlaceFollows(c: Config, default: nat, p: Part, now: nat)
    requires default > 0
    ensures var q := PlaceOf(c, default, p, now);
            q.align > 0 && (q.offset % q.align == 0 ==> Positioned(c, default, p, q, now))
  {
    var q := PlaceOf(c, default, p, now);
    BackupLeast(now, p.size);
    if p.offset == 0 && q.offset % q.align == 0 && p.e.kind != GptBackup && (p.inTable || c.tableType == NoTable) {
      if p.logical {
        RoundTwice(now + default, q.align);
      } else {
        RoundLeast(now, q.align);
      }
    }
  }

  /** And there is no other. */
  lemma PlaceUnique(c: Config, default: nat, p: Part, q: Part, now: nat)
    requires default > 0 && q.align > 0 && Positioned(c, default, p, q, now) && !p.logical
    requires p.e.kind == GptBackup ==> !p.inTable && c.tableType != NoTable
    requires now == 0 && p.offset == 0 ==> TWO64 % q.align == 0
    ensures var r := PlaceOf(c, default, p, now); r.offset == q.offset && r.align == q.align && r.inTable == q.inTable
  {
    var r := PlaceOf(c, default, p, now);
    if p.offset == 0 {
      if p.e.kind == GptBackup {
        BackupLeast(now, p.size);
        LeastUnique(r.offset + p.size, q.offset + p.size, 4096, now + p.size);
      } else if p.inTable || c.tableType == NoTable {
        if now > 0 {
          RoundUpIsLeast(now, q.align);
        } else {
          RoundUpZero(q.align);
        }
        LeastUnique(r.offset, q.offset, q.align, now);
      }
    }
  }

  lemma SizeUnique(c: Config, p: Part, q: Part, r: Part)
    requires q.align > 0 && r.align == q.align && r.inTable == q.inTable && SizedBy(c, p, q) && SizedBy(c, p, r)
    requires p.size == 0 ==> p.e.image.Some? && p.e.image.value in c.images && c.images[p.e.image.value].size > 0
    ensures r.size == q.size
  {
    if p.size == 0 && q.inTable {
      LeastUnique(q.size, r.size, q.align, c.images[p.e.image.value].size);
    }
  }

  /**
    The size of an entry p without autoresize: as configured; otherwise that of its image, in the table
    rounded up to the alignment, with the wrap-around of roundup for an empty image.
   */
  predicate SizedBy(c: Config, p: Part, q: Part)
    requires q.align > 0
  {
    && (p.size != 0 ==> q.size == p.size)
    && (p.size == 0 && p.e.image.None? ==> q.size == 0)
    && (p.size == 0 && p.e.image.Some? && p.e.image.value in c.images ==>
          var n := c.images[p.e.image.value].size;
          && (!q.inTable ==> q.size == n)
          && (q.inTable && n > 0 ==> Least(q.size, q.align, n))
          && (q.inTable && n == 0 ==> q.size < q.align && (q.align <= TWO64 ==> (q.size + TWO64) % q.align == 0)))
  }

  /** An autoresize entry takes all whole units of its alignment up to the end, or to the GPT backup. */
  predicate Stretched(c: Config, p: Part, q: Part, size: nat)
    requires q.align > 0
  {
    var space := size - q.offset - if HasGpt(c.tableType) then 33 * 512 else 0;
    q.size % q.align == 0 && q.size <= space < q.size + q.align && p.size <= q.size
  }

  /** Entry p as configured has become q by the rules. */
  predicate Ruled(c: Config, default: nat, size: nat, p: Part, q: Part, now: nat) {
    && q.align > 0 && SameEntry(p, q) && Positioned(c, default, p, q, now)
    && if p.e.autoresize then Stretched(c, p, q, size) else SizedBy(c, p, q)
  }

  /** The same for entry j of a list; the size of [Extended] is a matter of its logical entries. */
  predicate RuledAt(
    c: Config, default: nat, size: nat, start: nat, ext: Option<nat>, before: seq<Part>, ps: seq<Part>, j: nat)
    requires j < |ps| == |before|
  {
    var now := Frontier(start, ext, ps, j);
    if ext == Some(j) then ps[j].align > 0 && Positioned(c, default, before[j], ps[j], now)
    else Ruled(c, default, size, before[j], ps[j], now)
  }

  /** The first k entries follow the rules. */
  ghost predicate AllRuled(
    c: Config, default: nat, size: nat, start: nat, ext: Option<nat>, before: seq<Part>, ps: seq<Part>, k: nat)
  {
    |before| == |ps| && k <= |ps| && forall j :: 0 <= j < k ==> RuledAt(c, default, size, start, ext, before, ps, j)
  }

  /** All entries but i stay as they are, and [Extended] may grow. */
  ghost predicate OthersStay(ext: Option<nat>, ps: seq<Part>, qs: seq<Part>, i: nat) {
    |qs| == |ps| && forall j :: 0 <= j < |ps| && j != i ==>
      if ext == Some(j) then qs[j] == ps[j].(size := qs[j].size) else qs[j] == ps[j]
  }

  lemma SeenStays(ext: Option<nat>, ps: seq<Part>, qs: seq<Part>, i: nat, j: nat)
    requires OthersStay(ext, ps, qs, i) && j < |ps| && j != i
    ensures EndSeen(ext, qs, j) == EndSeen(ext, ps, j)
  {
  }

  lemma {:induction false} FrontierStays(start: nat, ext: Option<nat>, ps: seq<Part>, qs: seq<Part>, i: nat, k: nat)
    requires OthersStay(ext, ps, qs, i) && k <= i < |ps|
    ensures Frontier(start, ext, qs, k) == Frontier(start, ext, ps, k)
  {
    if k > 0 {
      FrontierStays(start, ext, ps, qs, i, k - 1);
      SeenStays(ext, ps, qs, i, k - 1);
    }
  }

  lemma RuledStays(
    c: Config, default: nat, size: nat, start: nat, ext: Option<nat>, before: seq<Part>, ps: seq<Part>, qs: seq<Part>,
    i: nat, j: nat)
    requires |before| == |ps| && j < i < |ps| && OthersStay(ext, ps, qs, i)
    requires RuledAt(c, default, size, start, ext, before, ps, j)
    ensures RuledAt(c, default, size, start, ext, before, qs, j)
  {
    FrontierStays(start, ext, ps, qs, i, j);
  }

  /** One more entry placed by the rules. */
  lemma AllRuledMore(
    c: Config, default: nat, size: nat, start: nat, ext: Option<nat>, before: seq<Part>, ps: seq<Part>, qs: seq<Part>,
    i: nat)
    requires AllRuled(c, default, size, start, ext, before, ps, i) && i < |ps| && OthersStay(ext, ps, qs, i)
    requires var now := Frontier(start, ext, ps, i);
             if ext == Some(i) then qs[i].align > 0 && Positioned(c, default, before[i], qs[i], now)
             else Ruled(c, default, size, before[i], qs[i], now)
    ensures AllRuled(c, default, size, start, ext, before, qs, i + 1)
    ensures Frontier(start, ext, qs, i + 1) == Max(Frontier(start, ext, ps, i), EndSeen(ext, qs, i))
  {
    FrontierStays(start, ext, ps, qs, i, i);
    forall j | 0 <= j < i + 1
      ensures RuledAt(c, default, size, start, ext, before, qs, j)
    {
      if j < i {
        RuledStays(c, default, size, start, ext, before, ps, qs, i, j);
      }
    }
  }

  /** The last logical entry among the first k. */
  predicate LastLogical(ps: seq<Part>, k: nat, l: nat) {
    l < k <= |ps| && ps[l].logical && forall m :: l < m < k ==> !ps[m].logical
  }

  /** [Extended] ends with the last logical entry. */
  ghost predicate Encloses(ext: Option<nat>, ps: seq<Part>, k: nat) {
    ext.Some? && ext.value < |ps| ==>
      forall l: nat :: LastLogical(ps, k, l) ==> ps[ext.value].End() == ps[l].End()
  }

  lemma EnclosesMore(ext: Option<nat>, ps: seq<Part>, qs: seq<Part>, i: nat)
    requires Encloses(ext, ps, i) && i < |ps| && OthersStay(ext, ps, qs, i)
    requires forall j :: 0 <= j < |ps| ==> qs[j].logical == ps[j].logical
    requires ext.Some? ==> ext.value < |ps| && forall j :: 0 <= j <= ext.value ==> !ps[j].logical
    requires ext.Some? && qs[i].logical ==> qs[ext.value].End() == qs[i].End()
    requires ext.Some? && !qs[i].logical && i != ext.value ==> qs[ext.value] == ps[ext.value]
    ensures Encloses(ext, qs, i + 1)
  {
    if ext.Some? {
      forall l: nat | LastLogical(qs, i + 1, l)
        ensures qs[ext.value].End() == qs[l].End()
      {
        if l < i {
          assert LastLogical(ps, i, l);
        }
      }
    }
  }

  lemma {:induction false} FrontierSame(start: nat, ps: seq<Part>, qs: seq<Part>, i: nat)
    requires i <= |ps| && i <= |qs|
    requires forall j :: 0 <= j < i ==> ps[j].offset == qs[j].offset && ps[j].size == qs[j].size
    ensures Frontier(start, None, ps, i) == Frontier(start, None, qs, i)
  {
    if i > 0 {
      FrontierSame(start, ps, qs, i - 1);
    }
  }

  // ---------------------------------------------------------------- the placement loop

  /** [Extended] has no size of its own. */
  predicate Unsized(ext: Option<nat>, ps: seq<Part>) {
    ext.Some? && ext.value < |ps| ==> ps[ext.value].size == 0
  }

  /** What one round does to the list: entry i is placed by the rules, and [Extended] grows around a logical one. */
  ghost predicate Step(
    c: Config, default: nat, size: nat, ext: Option<nat>, ps: seq<Part>, qs: seq<Part>, i: nat, now: nat, next: nat)
  {
    && |qs| == |ps| && i < |ps| && OthersStay(ext, ps, qs, i) && Ruled(c, default, size, ps[i], qs[i], now)
    && (forall j :: 0 <= j < |ps| ==> SameEntry(ps[j], qs[j])) && next == Max(now, qs[i].End())
    && (if qs[i].logical then ext.Some? && ext.value < |qs| && qs[ext.value].End() == qs[i].End()
        else forall j :: 0 <= j < |ps| && j != i ==> qs[j] == ps[j])
  }

  /** What is known of the list after i rounds, compared with the list as it was before. */
  ghost predicate Book(
    c: Config, default: nat, size: nat, start: nat, ext: Option<nat>, before: seq<Part>, ps: seq<Part>, i: nat,
    now: nat, initial: nat, file: nat)
  {
    && AllRuled(c, default, size, start, ext, before, ps, i) && now == Frontier(start, ext, ps, i)
    && Encloses(ext, ps, i) && Reaches(c, default, ps, i, initial, file)
    && KeptParts(ext, before, ps, 0, i) && SameInTable(c, before, ps)
    && (forall j :: i <= j < |ps| ==> ps[j] == before[j])
  }

  lemma BookMore(
    c: Config, default: nat, size: nat, start: nat, ext: Option<nat>, before: seq<Part>, ps: seq<Part>, qs: seq<Part>,
    i: nat, now: nat, next: nat, initial: nat, file: nat, grown: nat)
    requires Book(c, default, size, start, ext, before, ps, i, now, initial, file) && Unsized(ext, before)
    requires Shaped(c, ext, ps) && Step(c, default, size, ext, ps, qs, i, now, next)
    requires grown == file || ReachedBy(c, default, qs[i], grown)
    ensures Book(c, default, size, start, ext, before, qs, i + 1, next, initial, grown)
  {
    StepKeeps(c, default, size, ext, before, ps, qs, i, now, next);
    AllRuledMore(c, default, size, start, ext, before, ps, qs, i);
    EnclosesMore(ext, ps, qs, i);
    ReachesMore(c, default, ext, ps, qs, i, initial, file, grown);
  }

  lemma StepKeeps(
    c: Config, default: nat, size: nat, ext: Option<nat>, before: seq<Part>, ps: seq<Part>, qs: seq<Part>, i: nat,
    now: nat, next: nat)
    requires Shaped(c, ext, ps) && Step(c, default, size, ext, ps, qs, i, now, next) && |before| == |ps|
    requires KeptParts(ext, before, ps, 0, i) && SameInTable(c, before, ps)
    requires forall j :: i <= j < |ps| ==> ps[j] == before[j]
    ensures KeptParts(ext, ps, qs, i, i + 1) && KeptParts(ext, before, qs, 0, i + 1) && SameInTable(c, before, qs)
    ensures forall j :: i < j < |qs| ==> qs[j] == before[j]
  {
  }

  /** An accepted entry has been placed by the rules; of the others, only [Extended] has changed. */
  lemma StepAccepted(
    c: Config, default: nat, size: nat, ext: Option<nat>, ps: seq<Part>, mid: seq<Part>, qs: seq<Part>, i: nat,
    now: nat, room: nat, next: nat)
    requires Shaped(c, ext, ps) && |mid| == |ps| == |qs| && i < |ps| && mid == ps[i := mid[i]]
    requires SameEntry(ps[i], mid[i])
    requires Ruled(c, default, size, ps[i], mid[i], now)
    requires forall j :: 0 <= j < |ps| ==>
      if ext == Some(j) && mid[i].logical then qs[j] == mid[j].(size := qs[j].size) else qs[j] == mid[j]
    requires mid[i].logical ==>
      ext.Some? && ext.value < |qs| && qs[ext.value].End() == qs[i].End() && room <= mid[i].offset
    requires now <= room && (room == now || mid[i].logical || room <= mid[i].End())
    requires next == if qs[i].End() > room then qs[i].End() else room
    ensures Step(c, default, size, ext, ps, qs, i, now, next) && Shaped(c, ext, qs)
  {
    assert qs[i] == mid[i];
  }

  lemma CoversMore(
    c: Config, align: nat, ext: Option<nat>, ps: seq<Part>, qs: seq<Part>, i: nat, file: nat, grown: nat)
    requires FileCovers(c, align, ps, i, file) && file <= grown && i < |ps| && Shaped(c, ext, ps)
    requires OthersStay(ext, ps, qs, i) && (ext.Some? ==> SameEntry(ps[ext.value], qs[ext.value]))
    requires Fits(c, qs[i], grown) && (qs[i].logical ==> qs[i].offset - align + 512 <= grown)
    ensures FileCovers(c, align, qs, i + 1, grown)
  {
    forall j | 0 <= j < i + 1
      ensures Fits(c, qs[j], grown) && (qs[j].logical ==> qs[j].offset - align + 512 <= grown)
    {
      if j < i {
        assert Fits(c, ps[j], file);
      }
    }
  }

  /** The first i entries of the list have the places and sizes of qs. */
  predicate SamePlaces(ps: seq<Part>, qs: seq<Part>, i: nat) {
    |qs| == |ps| && forall j :: 0 <= j < i && j < |qs| ==> ps[j].offset == qs[j].offset && ps[j].size == qs[j].size
  }

  lemma SamePlacesMore(
    c: Config, default: nat, size: nat, ps: seq<Part>, next: seq<Part>, qs: seq<Part>, i: nat, now: nat, end: nat)
    requires SamePlaces(ps, qs, i) && Step(c, default, size, None, ps, next, i, now, end)
    requires next[i].offset == qs[i].offset && next[i].size == qs[i].size
    ensures SamePlaces(next, qs, i + 1)
  {
  }
}
