/**
  hdimage_setup of genimage's image-hd.c: the placement of partitions, the extended partition
  with its logical partitions, and the reserved areas of the partition tables.
 */
module HdLayout {
  import opened Common
  import opened GenimageFile
  import opened HdPlaces

  class HdImage {
    const cfg: Config
    /** The list image->partitions. */
    var parts: seq<Part>
    /** image->size; 0 while it is not known. */
    var imageSize: nat
    /** hd->align, hd->extended_partition, hd->extended_partition_index, hd->file_size. */
    var align: nat
    var extended: Option<nat>
    var extendedIndex: nat
    var fileSize: nat

    constructor (cfg: Config, parts: seq<Part>, imageSize: nat)
      ensures this.cfg == cfg && this.parts == parts && this.imageSize == imageSize
      ensures align == cfg.align && extended == None && extendedIndex == cfg.extendedIndex && fileSize == 0
    {
      this.cfg := cfg;
      this.parts := parts;
      this.imageSize := imageSize;
      align, extended, extendedIndex, fileSize := cfg.align, None, cfg.extendedIndex, 0;
    }

    // -------------------------------------------------------------- logical partitions

    /** The entries carry what was configured: nothing is placed or marked logical yet. */
    ghost predicate Fresh()
      reads this
    {
      extended == None && forall i :: 0 <= i < |parts| ==> parts[i].e.kind == User && !parts[i].logical
    }

    /** No extended partition is asked for or needed. */
    ghost predicate FewEntries()
      reads this
    {
      extendedIndex == 0 && (cfg.tableType == MbrTable ==> Count(parts, false) <= 4)
    }

    /** ensure_extended_partition_index. */
    method EnsureExtendedIndex()
      modifies this`extendedIndex
      ensures old(extendedIndex) != 0 ==> extendedIndex == old(extendedIndex)
      ensures old(extendedIndex) == 0 ==> extendedIndex == if Count(parts, false) > 4 then 4 else 0
    {
      if extendedIndex != 0 {
        return;
      }
      var count, i := 0, 0;
      while i < |parts|
        invariant 0 <= i <= |parts| && count == Count(parts[..i], false) <= 4
        invariant extendedIndex == 0
      {
        CountStep(parts, i, false);
        if parts[i].inTable {
          count := count + 1;
          if count > 4 {
            extendedIndex := 4;
            return;
          }
        }
        i := i + 1;
      }
      assert parts[..i] == parts;
    }

    /** The configured entries, with the extended partition inserted and some entries marked logical. */
    ghost predicate Split(orig: seq<Part>)
      reads this
    {
      if extended.None? then parts == orig
      else
        var e := extended.value;
        && e < |orig| && |parts| == |orig| + 1 && parts[..e] == orig[..e]
        && parts[e].e.kind == ExtendedTable && parts[e].size == 0 && parts[e].inTable && parts[e].align == align
        && parts[e].e.image == None && !parts[e].logical && !parts[e].e.autoresize
        && parts[e].offset == (if orig[e].offset != 0 then Sub64(orig[e].offset, align) else 0)
        && (forall j :: e < j < |parts| ==> parts[j] == orig[j - 1].(logical := parts[j].logical))
    }

    /** The insertion of the extended partition before the first logical one. */
    method InsertExtended(i: nat)
      requires extended.None? && i < |parts| && forall j :: i <= j < |parts| ==> !parts[j].logical
      modifies this`parts, this`extended
      ensures extended == Some(i) && Split(old(parts)) && parts[i + 1] == old(parts)[i]
      ensures forall j :: i < j < |parts| ==> !parts[j].logical
      ensures Count(parts[..i + 1], true) == Count(old(parts)[..i], true) + 1
    {
      var offset := if parts[i].offset != 0 then Sub64(parts[i].offset, align) else 0;
      var ext := Part(Entry(ExtendedTable, false, false, false, TYPE_EXTENDED, None), offset, 0, align, true, false);
      ghost var before := parts[..i];
      parts := parts[..i] + [ext] + parts[i..];
      assert parts[..i] == before;
      CountStep(parts, i, true);
      extended := Some(i);
    }

    /** The part of setup_logical_partitions that decides between logical and primary. */
    method Classify(i: nat, inExt: bool, foundExt: bool, entries: nat, ghost orig: seq<Part>)
      returns (ok: bool, inExtended: bool, mbrEntries: nat)
      requires i < |parts| && Split(orig) && (extended.Some? ==> extended.value < i)
      requires (inExt ==> foundExt) && (foundExt <==> extended.Some?)
      requires parts[i].inTable && entries == Count(parts[..i], true)
      requires forall j :: i <= j < |parts| ==> !parts[j].logical
      modifies this`parts
      ensures Split(orig) && |parts| == |old(parts)| && (inExtended ==> foundExt)
      ensures mbrEntries == Count(parts[..i + 1], true)
      ensures ok <==> mbrEntries <= 4 && if parts[i].e.forcedPrimary then foundExt else inExt || !foundExt
      ensures parts[i].logical <==> inExt && !parts[i].e.forcedPrimary
      ensures forall j :: i < j < |parts| ==> !parts[j].logical
    {
      inExtended, mbrEntries := inExt, entries;
      if parts[i].e.forcedPrimary {
        inExtended := false;
      }
      ghost var before := parts;
      if inExtended && !parts[i].e.forcedPrimary {
        parts := parts[i := parts[i].(logical := true)];
      } else {
        mbrEntries := mbrEntries + 1;
      }
      assert parts[..i] == before[..i];
      assert extended.Some? ==> parts[..extended.value] == before[..extended.value];
      CountStep(parts, i, true);
      if parts[i].e.forcedPrimary {
        ok := foundExt;
      } else {
        ok := inExtended || !foundExt;
      }
      if mbrEntries > 4 {
        ok := false;
      }
    }

    lemma SplitShaped(orig: seq<Part>)
      requires Split(orig) && cfg.tableType == MbrTable
      requires forall i :: 0 <= i < |orig| ==> orig[i].e.kind == User && !orig[i].logical
      ensures Shaped(cfg, extended, parts)
      ensures forall i :: 0 <= i < |parts| && extended != Some(i) ==> parts[i].e.kind == User
    {
      if extended.Some? {
        forall i | 0 <= i < extended.value
          ensures parts[i] == orig[i]
        {
          assert parts[..extended.value][i] == orig[..extended.value][i];
        }
      }
    }

    /** setup_logical_partitions. */
    method SetupLogical() returns (ok: bool)
      requires Fresh() && align > 0
      modifies this`parts, this`extended, this`extendedIndex
      ensures ok ==> Shaped(cfg, extended, parts)
      ensures ok && cfg.tableType == MbrTable ==> Count(parts, true) <= 4
      ensures ok ==> forall i :: 0 <= i < |parts| && extended != Some(i) ==> parts[i].e.kind == User
      ensures ok ==> Split(old(parts))
      ensures old(FewEntries()) ==> ok && parts == old(parts) && extended.None?
    {
      if extendedIndex > 4 {
        return false;
      }
      if cfg.tableType != MbrTable {
        return true;
      }
      EnsureExtendedIndex();
      if extendedIndex == 0 {
        CountNoLogical(parts);
        return true;
      }
      ok := MarkEntries();
      if ok {
        SplitShaped(old(parts));
      }
    }

    /** The loop of setup_logical_partitions over the entries. */
    method MarkEntries() returns (ok: bool)
      requires extended.None? && extendedIndex > 0
      requires forall i :: 0 <= i < |parts| ==> !parts[i].logical
      modifies this`parts, this`extended
      ensures ok ==> Split(old(parts)) && Count(parts, true) <= 4
    {
      var inExtended, foundExtended := false, false;
      var count, mbrEntries := 0, 0;
      var i := 0;
      while i < |parts|
        invariant 0 <= i <= |parts|
        invariant foundExtended <==> extended.Some?
        invariant extended.None? <==> count < extendedIndex
        invariant mbrEntries == Count(parts[..i], true) <= 4
        invariant forall j :: i <= j < |parts| ==> !parts[j].logical
        invariant inExtended ==> foundExtended
        invariant Split(old(parts)) && (extended.Some? ==> extended.value < i)
        decreases |parts| - i + if extended.None? then 1 else 0
      {
        if parts[i].inTable {
          count := count + 1;
          if extendedIndex == count {
            InsertExtended(i);
            i := i + 1;
            inExtended, foundExtended := true, true;
            mbrEntries := mbrEntries + 1;
          }
          ok, inExtended, mbrEntries := Classify(i, inExtended, foundExtended, mbrEntries, old(parts));
          if !ok {
            return false;
          }
        } else {
          CountStep(parts, i, true);
        }
        i := i + 1;
      }
      assert parts[..i] == parts;
      ok := true;
    }

    // -------------------------------------------------------------- placement

    /** Only entry i has changed, and not in what it is. */
    twostate predicate Touched(i: nat)
      reads this
    {
      && |parts| == |old(parts)| && i < |parts|
      && parts == old(parts)[i := parts[i]]
      && SameEntry(old(parts)[i], parts[i])
    }

    /** The alignment and offset of an entry p; next is the new value of now. */
    method Locate(configured: Part, now: nat) returns (p: Part, next: nat)
      requires align > 0
      ensures p == PlaceOf(cfg, align, configured, now) && next == RoomOf(cfg, align, configured, now)
    {
      p := configured;
      if cfg.tableType == NoTable {
        p := p.(inTable := false);
      }
      if p.align == 0 {
        p := p.(align := if p.inTable || cfg.tableType == NoTable then align else 1);
      }
      next := now;
      if p.logical {
        // room for the extended boot record
        next := RoundUp(now + align, p.align);
      }
      if p.e.kind == GptBackup && p.offset == 0 {
        // the backup, and hence the image, ends at a 4K boundary
        next := next + p.size;
        p := p.(offset := BackupOffset(next, p.size));
      }
      if p.offset == 0 && (p.inTable || cfg.tableType == NoTable) {
        p := p.(offset := RoundUp(next, p.align));
      }
    }

    method Position(i: nat, now: nat) returns (ok: bool, next: nat)
      requires i < |parts| && align > 0
      modifies this`parts
      ensures Touched(i) && parts[i] == PlaceOf(cfg, align, old(parts)[i], now) && parts[i].align > 0
      ensures (ok <==> parts[i].offset % parts[i].align == 0) && next == RoomOf(cfg, align, old(parts)[i], now)
    {
      var p;
      p, next := Locate(parts[i], now);
      parts := parts[i := p];
      ok := p.offset % p.align == 0;
    }

    /** What is left of the image from a position on, without the backup of the partition table. */
    function Space(offset: nat): int
      reads this`imageSize
    {
      imageSize - offset - if HasGpt(cfg.tableType) then GPT_SECTORS * 512 else 0
    }

    /** setup_part_autoresize: one entry takes as many whole units of its alignment as there is space for. */
    method Autoresize(i: nat, resized: bool) returns (ok: bool, done: bool)
      requires i < |parts| && parts[i].align > 0
      modifies this`parts
      ensures Touched(i) && parts[i] == old(parts)[i].(size := parts[i].size)
      ensures !parts[i].e.autoresize ==> parts == old(parts) && ok && done == resized
      ensures parts[i].e.autoresize && ok ==>
        && !resized && done && imageSize > 0 && old(parts)[i].size <= parts[i].size && 0 < parts[i].size
        && Stretched(cfg, old(parts)[i], parts[i], imageSize)
      ensures parts[i].e.autoresize ==>
        (ok <==> !resized && imageSize > 0 && Space(parts[i].offset) > 0
                 && RoundDown(Space(parts[i].offset), parts[i].align) >= Max(1, old(parts)[i].size))
    {
      done := resized;
      if !parts[i].e.autoresize {
        return true, done;
      }
      if resized || imageSize == 0 {
        return false, done;
      }
      var partsize: int := imageSize - parts[i].offset;
      if HasGpt(cfg.tableType) {
        partsize := partsize - GPT_SECTORS * 512;
      }
      if partsize <= 0 {
        return false, done;
      }
      RoundDownMultiple(partsize, parts[i].align);
      partsize := RoundDown(partsize, parts[i].align);
      if partsize <= 0 || partsize < parts[i].size {
        return false, done;
      }
      parts := parts[i := parts[i].(size := partsize)];
      return true, true;
    }

    /** setup_part_image: a partition without a size takes its image's. */
    method PartImage(i: nat) returns (ok: bool)
      requires i < |parts| && parts[i].align > 0
      modifies this`parts, this`fileSize
      ensures Touched(i) && parts[i] == old(parts)[i].(size := parts[i].size)
      ensures old(parts)[i].size != 0 || parts[i].e.image.None? ==> parts == old(parts)
      ensures fileSize >= old(fileSize) && (fileSize == old(fileSize) || ReachedBy(cfg, align, parts[i], fileSize))
      ensures ok <==> Fits(cfg, parts[i], fileSize)
      ensures SizedBy(cfg, old(parts)[i], parts[i])
      ensures ok <==> (parts[i].e.image.Some? ==>
        parts[i].e.image.value in cfg.images && cfg.images[parts[i].e.image.value].size <= parts[i].size)
    {
      if parts[i].e.image.None? {
        return true;
      }
      if parts[i].e.image.value !in cfg.images {
        return false;
      }
      var child := cfg.images[parts[i].e.image.value];
      if parts[i].size == 0 {
        if child.size > 0 {
          RoundUpIsLeast(child.size, parts[i].align);
        } else {
          RoundUpZero(parts[i].align);
        }
        var size := if parts[i].inTable then RoundUp(child.size, parts[i].align) else child.size;
        parts := parts[i := parts[i].(size := size)];
      }
      if child.size > parts[i].size {
        return false;
      }
      if parts[i].offset + child.size > fileSize {
        fileSize := parts[i].offset + child.size;
      }
      ok := true;
    }

    /** check_overlap. */
    method CheckOverlap(j: nat) returns (ok: bool)
      requires j < |parts|
      ensures ok <==> forall i :: 0 <= i < j ==> Separate(cfg, parts, i, j)
    {
      var i := 0;
      while i < j
        invariant i <= j && forall q :: 0 <= q < i ==> Separate(cfg, parts, q, j)
      {
        if !Apart(parts[j], parts[i]) && !HoleCovers(cfg.images, parts[i], parts[j]) {
          assert !Separate(cfg, parts, i, j);
          return false;
        }
        i := i + 1;
      }
      ok := true;
    }

    /** Entries keep their identity, and what was configured explicitly. */
    twostate predicate Kept(from: nat, to: nat)
      reads this
    {
      KeptParts(extended, old(parts), parts, from, to)
    }

    /**
      The place q suits the entry p: it is the one the rules give, with whole sectors, and the image fits.
      Logical and autoresize entries are left aside, and so is what wraps around: places at 0 with an
      alignment that does not divide 2^64, and empty images without a size.
     */
    predicate Suits(default: nat, p: Part, q: Part, now: nat) {
      && q.align > 0 && !p.logical && !p.e.autoresize && Positioned(cfg, default, p, q, now) && SizedBy(cfg, p, q)
      && q.size > 0 && (q.inTable ==> q.size % 512 == 0)
      && (p.e.kind == GptBackup ==> !p.inTable && cfg.tableType != NoTable)
      && (now == 0 && p.offset == 0 ==> TWO64 % q.align == 0)
      && (p.size == 0 ==> p.e.image.Some?)
      && (p.e.image.Some? ==>
            && p.e.image.value in cfg.images && cfg.images[p.e.image.value].size <= q.size
            && (p.size == 0 ==> cfg.images[p.e.image.value].size > 0))
    }

    /** The entry is as large as its image, if it has one. */
    predicate Holding(p: Part) {
      p.e.image.Some? ==> p.e.image.value in cfg.images && cfg.images[p.e.image.value].size <= p.size
    }

    /** A place and size that are given, aligned and large enough for the image. */
    predicate Given(p: Part) {
      && p.offset > 0 && p.size > 0 && p.align > 0 && p.offset % p.align == 0 && !p.e.autoresize && !p.logical
      && Holding(p) && (p.inTable ==> p.size % 512 == 0 && cfg.tableType != NoTable)
      && (p.e.kind == GptBackup ==> !p.inTable && cfg.tableType != NoTable)
    }

    lemma GivenSuits(default: nat, p: Part, now: nat)
      requires Given(p)
      ensures Suits(default, p, p, now)
    {
    }

    /** The first half of a round of the placement loop: position, alignment and size. */
    method SizePart(i: nat, now: nat, resized: bool) returns (ok: bool, next: nat, done: bool)
      requires i < |parts| && align > 0
      modifies this`parts, this`fileSize
      ensures Touched(i) && fileSize >= old(fileSize) && parts[i].align > 0
      ensures fileSize == old(fileSize) || ReachedBy(cfg, align, parts[i], fileSize)
      ensures var q := PlaceOf(cfg, align, old(parts)[i], now); parts[i] == q.(size := parts[i].size)
      ensures next == RoomOf(cfg, align, old(parts)[i], now)
      ensures ok ==> parts[i].offset % parts[i].align == 0 && Fits(cfg, parts[i], fileSize)
      ensures ok ==> extended == Some(i) || parts[i].size > 0
      ensures ok && parts[i].e.autoresize ==> Stretched(cfg, old(parts)[i], parts[i], imageSize)
      ensures parts[i].offset % parts[i].align == 0 && !parts[i].e.autoresize ==>
        && SizedBy(cfg, old(parts)[i], parts[i])
        && (ok <==> Holding(parts[i]) && (parts[i].size > 0 || extended == Some(i)))
    {
      done := resized;
      PlaceFollows(cfg, align, parts[i], now);
      ok, next := Position(i, now);
      if !ok { return; }
      ok, done := Autoresize(i, resized);
      if !ok { return; }
      ok := PartImage(i);
      if !ok { return; }
      // the size of the extended partition is filled in later
      ok := parts[i].size > 0 || extended == Some(i);
    }

    /** What has been placed and sized follows the rules, and is the place that suits, if there is one. */
    lemma SizedRuled(p: Part, q: Part, now: nat, next: nat)
      requires align > 0 && q.align > 0 && q == PlaceOf(cfg, align, p, now).(size := q.size)
      requires next == RoomOf(cfg, align, p, now)
      requires q.offset % q.align == 0
      requires if p.e.autoresize then Stretched(cfg, p, q, imageSize) else SizedBy(cfg, p, q)
      ensures Ruled(cfg, align, imageSize, p, q, now) && Configured(p, q)
      ensures now <= next && (q.logical ==> next >= now + align) && (next == now || q.logical || next <= q.End())
    {
      PlaceFollows(cfg, align, p, now);
      RoomFacts(cfg, align, p, now);
    }

    lemma PlanTaken(p: Part, q: Part, plan: Part, now: nat)
      requires align > 0 && q.align > 0 && q == PlaceOf(cfg, align, p, now).(size := q.size)
      requires Suits(align, p, plan, now)
      requires q.offset % q.align == 0 ==> SizedBy(cfg, p, q)
      ensures q.offset == plan.offset && q.size == plan.size && q.inTable == plan.inTable && q.offset % q.align == 0
      ensures Holding(q) && q.size > 0
    {
      PlaceUnique(cfg, align, p, plan, now);
      SizeUnique(cfg, p, plan, q);
    }

    /** An entry is accepted if it keeps clear of the earlier ones and has whole sectors. */
    ghost predicate Acceptable(i: nat, positioned: nat)
      reads this
      requires i < |parts|
    {
      && (if parts[i].logical then positioned <= parts[i].offset
          else forall q :: 0 <= q < i ==> Separate(cfg, parts, q, i))
      && (parts[i].inTable ==> parts[i].size % 512 == 0)
    }

    /** The second half: the entry is checked against the ones before it and counted. */
    method Accept(i: nat, now: nat, positioned: nat) returns (ok: bool, next: nat)
      requires i < |parts| && align > 0 && Shaped(cfg, extended, parts)
      requires Placed(cfg, align, extended, parts, i, now) && now <= positioned
      requires parts[i].align > 0 && parts[i].offset % parts[i].align == 0
      requires extended == Some(i) || parts[i].size > 0
      requires parts[i].logical ==> positioned >= now + align
      modifies this`parts, this`fileSize
      ensures |parts| == |old(parts)|
      ensures ok ==> Placed(cfg, align, extended, parts, i + 1, next)
      ensures ok <==> old(Acceptable(i, positioned))
      ensures ok && parts[i].logical ==> positioned <= parts[i].offset
      ensures ok ==> positioned <= next && next == if parts[i].End() > positioned then parts[i].End() else positioned
      ensures ok && parts[i].logical ==> extended.Some? && parts[extended.value].End() == parts[i].End()
      ensures fileSize >= old(fileSize) && (parts[i].logical && ok ==> parts[i].offset - align + 512 <= fileSize)
      ensures fileSize == old(fileSize) || ReachedBy(cfg, align, parts[i], fileSize)
      ensures forall j :: 0 <= j < |parts| ==>
        if extended == Some(j) && old(parts)[i].logical then parts[j] == old(parts)[j].(size := parts[j].size)
        else parts[j] == old(parts)[j]
    {
      next := positioned;
      if !parts[i].logical {
        ok := CheckOverlap(i);
        if !ok { return; }
      } else if next > parts[i].offset {
        return false, next;
      }
      if parts[i].inTable && parts[i].size % 512 != 0 {
        return false, next;
      }
      ok := true;
      if parts[i].logical {
        GrowExtended(i, now);
        next := parts[i].End();
      } else {
        if parts[i].End() > next {
          next := parts[i].End();
        }
        PlacePrimary(cfg, align, extended, parts, i, now, next);
      }
    }

    /** The extended partition grows to hold a logical entry; the file, to hold its boot record. */
    method GrowExtended(i: nat, now: nat)
      requires i < |parts| && align > 0 && Shaped(cfg, extended, parts) && parts[i].logical
      requires Placed(cfg, align, extended, parts, i, now)
      requires now + align <= parts[i].offset && Sound(parts[i], parts[i].End())
      modifies this`parts, this`fileSize
      ensures i < |parts| && Placed(cfg, align, extended, parts, i + 1, parts[i].End())
      ensures fileSize >= old(fileSize) && parts[i].offset - align + 512 <= fileSize
      ensures fileSize == old(fileSize) || ReachedBy(cfg, align, parts[i], fileSize)
      ensures var e := extended.value; parts == old(parts)[e := old(parts)[e].(size := parts[e].size)]
      ensures extended.Some? && parts[extended.value].End() == parts[i].End()
    {
      var e := extended.value;
      assert Sound(parts[e], now);
      var grown := parts[e := parts[e].(size := parts[i].End() - parts[e].offset)];
      PlaceLogical(cfg, align, extended, parts, i, now, grown);
      var fileEnd := parts[i].offset - align + 512;
      if fileEnd > fileSize {
        fileSize := fileEnd;
      }
      parts := grown;
    }

    /** A place of a plan that is clear of the entries before it. */
    predicate Clear(i: nat, plan: Option<Part>, now: nat)
      reads this
      requires i < |parts|
    {
      plan.Some? && Suits(align, parts[i], plan.value, now) && forall q :: 0 <= q < i ==> Apart(plan.value, parts[q])
    }

    /** One round of the placement loop of hdimage_setup; a place of a plan is taken. */
    method PlacePart(i: nat, now: nat, resized: bool, ghost plan: Option<Part>)
      returns (ok: bool, next: nat, done: bool)
      requires i < |parts| && align > 0 && Shaped(cfg, extended, parts)
      requires Placed(cfg, align, extended, parts, i, now) && FileCovers(cfg, align, parts, i, fileSize)
      modifies this`parts, this`fileSize
      ensures ok ==> Shaped(cfg, extended, parts) && Placed(cfg, align, extended, parts, i + 1, next)
      ensures ok ==> FileCovers(cfg, align, parts, i + 1, fileSize)
      ensures ok ==> Step(cfg, align, imageSize, extended, old(parts), parts, i, now, next)
      ensures ok ==> fileSize == old(fileSize) || ReachedBy(cfg, align, parts[i], fileSize)
      ensures old(Clear(i, plan, now)) ==>
        ok && parts[i].offset == plan.value.offset && parts[i].size == plan.value.size
    {
      ghost var before, clear := parts, Clear(i, plan, now);
      ok, next, done := SizePart(i, now, resized);
      if clear {
        PlanTaken(before[i], parts[i], plan.value, now);
      }
      if !ok { return; }
      SizedRuled(before[i], parts[i], now, next);
      StaysPlaced(cfg, align, extended, before, parts, i, now);
      ok, next := AcceptRuled(i, now, next, before, old(fileSize));
    }

    /** The second half of a round, with what both have done to the list as it was before. */
    method AcceptRuled(i: nat, now: nat, room: nat, ghost before: seq<Part>, ghost file: nat)
      returns (ok: bool, next: nat)
      requires i < |parts| == |before| && align > 0 && Shaped(cfg, extended, before) && Shaped(cfg, extended, parts)
      requires Placed(cfg, align, extended, parts, i, now)
      requires FileCovers(cfg, align, before, i, file) && file <= fileSize
      requires parts == before[i := parts[i]] && Ruled(cfg, align, imageSize, before[i], parts[i], now)
      requires parts[i].offset % parts[i].align == 0 && (extended == Some(i) || parts[i].size > 0)
      requires Fits(cfg, parts[i], fileSize) && now <= room && (parts[i].logical ==> room >= now + align)
      requires room == now || parts[i].logical || room <= parts[i].End()
      modifies this`parts, this`fileSize
      ensures ok ==> Shaped(cfg, extended, parts) && Placed(cfg, align, extended, parts, i + 1, next)
      ensures ok ==> FileCovers(cfg, align, parts, i + 1, fileSize)
      ensures ok ==> Step(cfg, align, imageSize, extended, before, parts, i, now, next)
      ensures ok <==> old(Acceptable(i, room))
      ensures i < |parts| && parts[i] == old(parts)[i]
      ensures fileSize == old(fileSize) || ReachedBy(cfg, align, parts[i], fileSize)
    {
      ghost var mid := parts;
      ok, next := Accept(i, now, room);
      if ok {
        StepAccepted(cfg, align, imageSize, extended, before, mid, parts, i, now, room, next);
        CoversMore(cfg, align, extended, before, parts, i, file, fileSize);
      }
    }

    // -------------------------------------------------------------- hdimage_setup

    /** hd->gpt_location, 1024 unless configured. */
    function GptLocation(): nat {
      if cfg.gptLocation == 0 then 2 * 512 else cfg.gptLocation
    }

    /** The entries that reserve space for the partition tables. */
    function Tables(size: nat): seq<Part> {
      if cfg.tableType == NoTable then []
      else
        [Fake(Mbr, 512 - 72, 72)] +
        if !HasGpt(cfg.tableType) then []
        else
          [Fake(GptHeader, 512, 512), Fake(GptArray, GptLocation(), (GPT_SECTORS - 1) * 512),
           Fake(GptBackup, if size == 0 then 0 else Sub64(size, GPT_SECTORS * 512), GPT_SECTORS * 512)]
    }

    /** Where placement starts: behind the partition table. */
    function Start(): nat {
      if cfg.tableType == NoTable then 0
      else if HasGpt(cfg.tableType) then GptLocation() + (GPT_SECTORS - 1) * 512
      else 512
    }

    /** The places qs suit the entries ps one after the other, apart from each other and inside the image. */
    ghost predicate PlanFits(default: nat, ps: seq<Part>, qs: seq<Part>, size: nat) {
      && |qs| == |ps| && (size > 0 ==> Start() <= size)
      && (forall i :: 0 <= i < |ps| ==> Suits(default, ps[i], qs[i], Frontier(Start(), None, qs, i)))
      && (forall i :: 0 <= i < |ps| ==> (size > 0 ==> qs[i].End() <= size))
      && (forall i, j :: 0 <= i < j < |ps| ==> Apart(qs[j], qs[i]))
    }

    ghost predicate Plan(qs: seq<Part>)
      reads this
    {
      extended.None? && PlanFits(align, parts, qs, imageSize)
    }

    /** The first i entries have the places of the plan. */
    ghost predicate OnPlan(qs: seq<Part>, i: nat)
      reads this
    {
      SamePlaces(parts, qs, i)
    }

    /** The next place of the plan is clear of the ones before it. */
    lemma PlanNext(before: seq<Part>, qs: seq<Part>, i: nat)
      requires PlanFits(align, before, qs, imageSize) && OnPlan(qs, i)
      requires i < |parts| == |before| && parts[i] == before[i]
      ensures Suits(align, parts[i], qs[i], Frontier(Start(), None, parts, i)) && !parts[i].logical
      ensures imageSize > 0 ==> qs[i].End() <= imageSize
      ensures forall q :: 0 <= q < i ==> Apart(qs[i], parts[q])
    {
      FrontierSame(Start(), parts, qs, i);
      forall q | 0 <= q < i
        ensures Apart(qs[i], parts[q])
      {
        assert Apart(qs[i], qs[q]);
      }
    }

    /** What holds before round i of the placement loop. */
    ghost predicate Progress(before: seq<Part>, i: nat, now: nat, initial: nat)
      reads this
    {
      && align > 0 && Shaped(cfg, extended, parts) && Unsized(extended, before)
      && Placed(cfg, align, extended, parts, i, now) && FileCovers(cfg, align, parts, i, fileSize)
      && Book(cfg, align, imageSize, Start(), extended, before, parts, i, now, initial, fileSize)
    }

    /** The same for a plan. */
    ghost predicate Planning(before: seq<Part>, qs: seq<Part>, i: nat, now: nat)
      reads this
    {
      && extended.None? && PlanFits(align, before, qs, imageSize) && OnPlan(qs, i)
      && (imageSize > 0 ==> now <= imageSize)
    }

    lemma ProgressStart(qs: seq<Part>)
      requires align > 0 && Shaped(cfg, extended, parts) && Unsized(extended, parts)
      ensures Progress(parts, 0, Start(), fileSize)
      ensures Plan(qs) ==> Planning(parts, qs, 0, Start())
    {
    }

    /** The placement loop over the whole list; the places of a plan, if there is one, are taken. */
    method PlaceAll(ghost qs: seq<Part>, ghost planned: bool) returns (ok: bool, now: nat)
      requires align > 0 && Shaped(cfg, extended, parts) && Unsized(extended, parts)
      requires planned ==> Plan(qs)
      modifies this`parts, this`fileSize
      ensures ok ==> Progress(old(parts), |parts|, now, old(fileSize))
      ensures planned ==> ok && (imageSize > 0 ==> now <= imageSize)
    {
      now := Start();
      var resized, i := false, 0;
      ghost var before, initial := parts, fileSize;
      ProgressStart(qs);
      while i < |parts|
        invariant 0 <= i <= |parts| && Progress(before, i, now, initial)
        invariant planned ==> Planning(before, qs, i, now)
      {
        ok, now, resized := PlaceRound(i, now, resized, before, initial, qs, planned);
        if !ok { return; }
        i := i + 1;
      }
      ok := true;
    }

    /** One more round, with or without a plan. */
    method PlaceRound(i: nat, now: nat, resized: bool, ghost before: seq<Part>, ghost initial: nat,
                      ghost qs: seq<Part>, ghost planned: bool)
      returns (ok: bool, next: nat, done: bool)
      requires i < |parts| && Progress(before, i, now, initial) && (planned ==> Planning(before, qs, i, now))
      modifies this`parts, this`fileSize
      ensures ok ==> i < |parts| && Progress(before, i + 1, next, initial)
      ensures planned ==> ok && Planning(before, qs, i + 1, next)
    {
      ghost var was, plan := parts, None;
      if planned {
        plan := Some(qs[i]);
        PlanNext(before, qs, i);
      }
      ok, next, done := PlaceNext(i, now, resized, before, initial, plan);
      if planned {
        SamePlacesMore(cfg, align, imageSize, was, parts, qs, i, now, next);
      }
    }

    /** One more round. */
    method PlaceNext(i: nat, now: nat, resized: bool, ghost before: seq<Part>, ghost initial: nat,
                     ghost plan: Option<Part>)
      returns (ok: bool, next: nat, done: bool)
      requires i < |parts| && Progress(before, i, now, initial)
      modifies this`parts, this`fileSize
      ensures ok ==> i < |parts| && Progress(before, i + 1, next, initial)
      ensures ok ==> Step(cfg, align, imageSize, extended, old(parts), parts, i, now, next)
      ensures old(Clear(i, plan, now)) ==>
        ok && parts[i].offset == plan.value.offset && parts[i].size == plan.value.size
    {
      ghost var was, file := parts, fileSize;
      ok, next, done := PlacePart(i, now, resized, plan);
      if ok {
        BookMore(cfg, align, imageSize, Start(), extended, before, was, parts, i, now, next, initial, file, fileSize);
      }
    }

    /** An MBR type only where there is an MBR, and at most three hybrid entries, at least one if asked for. */
    ghost predicate TypesFit(ps: seq<Part>) {
      && (!HasMbr(cfg.tableType) ==> forall j :: 0 <= j < |ps| ==> ps[j].e.partitionType == 0)
      && (HasGpt(cfg.tableType) ==> CountHybrid(ps) <= 3)
      && (cfg.tableType == HybridTable ==> CountHybrid(ps) > 0)
    }

    /** The four entries of the MBR suffice: one of them is the protective one in a hybrid table. */
    ghost predicate SlotsFit(ps: seq<Part>) {
      (cfg.tableType == MbrTable ==> Count(ps, true) <= 4) && (HasGpt(cfg.tableType) ==> CountHybrid(ps) <= 3)
    }

    /** The partition type checks; hybrid entries are GPT entries with an MBR type. */
    method CheckTypes() returns (ok: bool)
      ensures ok <==> TypesFit(parts)
    {
      var hybrid, i := 0, 0;
      while i < |parts|
        invariant 0 <= i <= |parts|
        invariant !HasMbr(cfg.tableType) ==> forall j :: 0 <= j < i ==> parts[j].e.partitionType == 0
        invariant hybrid == if HasGpt(cfg.tableType) then CountHybrid(parts[..i]) else 0
      {
        if parts[i].e.partitionType != 0 && !HasMbr(cfg.tableType) {
          return false;
        }
        if HasGpt(cfg.tableType) && parts[i].inTable && parts[i].e.partitionType != 0 {
          hybrid := hybrid + 1;
        }
        assert parts[..i + 1][..i] == parts[..i];
        i := i + 1;
      }
      assert parts[..i] == parts;
      ok := hybrid <= 3 && (cfg.tableType == HybridTable ==> hybrid > 0);
    }

    /** The output file is to be as long as the image. */
    predicate Whole() {
      cfg.fill || (HasGpt(cfg.tableType) && !cfg.gptNoBackup)
    }

    /** What hdimage_setup establishes when it succeeds. */
    ghost predicate Laid()
      reads this
    {
      && align > 0 && (cfg.tableType != NoTable ==> align % 512 == 0)
      && Shaped(cfg, extended, parts) && Placed(cfg, align, extended, parts, |parts|, imageSize)
      && FileCovers(cfg, align, parts, |parts|, fileSize)
      && (Whole() ==> fileSize == imageSize)
      && TablesPlaced() && SlotsFit(parts)
    }

    /** The last entries are the areas of the partition tables, where hdimage_generate writes them. */
    ghost predicate TablesPlaced()
      reads this
    {
      var n := |parts|;
      cfg.tableType != NoTable ==>
        && n >= (if HasGpt(cfg.tableType) then 4 else 1)
        && IsArea(parts[if HasGpt(cfg.tableType) then n - 4 else n - 1], Mbr, 440, 72)
        && (HasGpt(cfg.tableType) ==>
              && IsArea(parts[n - 3], GptHeader, 512, 512)
              && IsArea(parts[n - 2], GptArray, GptLocation(), 32 * 512)
              && 33 * 512 <= imageSize && IsArea(parts[n - 1], GptBackup, imageSize - 33 * 512, 33 * 512))
    }

    /** The configured entry number i, in the order given, is entry At(i) of the final list. */
    function Moved(i: nat): nat
      reads this`extended
    {
      if extended.Some? && extended.value <= i then i + 1 else i
    }

    /** The configured entries are there, in order, with some of them marked logical. */
    ghost predicate Holds(orig: seq<Part>)
      reads this
    {
      forall i :: 0 <= i < |orig| ==>
        Moved(i) < |parts| && Configured(orig[i].(logical := parts[Moved(i)].logical), parts[Moved(i)])
    }

    /** The list has no entries but the configured ones, the extended partition and the table areas. */
    ghost predicate Accounted(orig: seq<Part>)
      reads this
    {
      AccountedFor(orig, parts)
    }

    ghost predicate AccountedFor(orig: seq<Part>, ps: seq<Part>)
      reads this`extended
    {
      var more := if extended.Some? then 1 else 0;
      && |ps| == |orig| + more + |Tables(0)|
      && (cfg.tableType != NoTable ==> Count(ps, false) == Count(orig, false) + more)
    }

    /** The default alignment. */
    function DefaultAlign(): nat
      reads this`align
    {
      if align != 0 then align else if cfg.tableType == NoTable then 1 else 512
    }

    /**
      Every entry has become what the rules make of its configuration, one after the other; [Extended] starts
      with the first of its logical entries and ends with the last; an image of no given size ends where the
      last entry ends, and with a GPT at the backup, on a 4 KiB boundary.
     */
    ghost predicate Followed(orig: seq<Part>, size: nat)
      reads this
    {
      && (forall i :: 0 <= i < |orig| ==> Moved(i) < |parts| && FollowedAt(orig, size, i))
      && (extended.Some? ==>
            extended.value < |orig| && extended.value < |parts| && ExtendedFollows(orig[extended.value]))
      && Encloses(extended, parts, |parts|)
      && (size == 0 ==> imageSize == Frontier(Start(), extended, parts, |parts|))
      && (size == 0 && HasGpt(cfg.tableType) && |parts| > 0 ==>
            Least(imageSize, 4096, Frontier(Start(), extended, parts, |parts| - 1) + 33 * 512))
    }

    ghost predicate FollowedAt(orig: seq<Part>, size: nat, i: nat)
      reads this
      requires i < |orig| && Moved(i) < |parts|
    {
      var q := parts[Moved(i)];
      Ruled(cfg, align, size, orig[i].(logical := q.logical), q, Frontier(Start(), extended, parts, Moved(i)))
    }

    /** [Extended] starts one alignment before the configured offset of its first logical entry. */
    ghost predicate ExtendedFollows(first: Part)
      reads this
      requires extended.Some? && extended.value < |parts|
    {
      var q, now := parts[extended.value], Frontier(Start(), extended, parts, extended.value);
      && (first.offset == 0 ==> align > 0 && Least(q.offset, align, now))
      && (first.offset > align ==> q.offset + align == first.offset)
    }

    /** There is a place for every entry, with few enough entries to need no extended partition. */
    ghost predicate PlannedAs(qs: seq<Part>)
      reads this
    {
      var all := parts + Tables(imageSize);
      && DefaultAlign() > 0 && (cfg.tableType != NoTable ==> DefaultAlign() % 512 == 0)
      && FewEntries() && PlanFits(DefaultAlign(), all, qs, imageSize) && TypesFit(all)
    }

    /**
      A configuration for which the rules give places that do not overlap and fit: every entry has a size or
      an image, the offsets are given or left out.
     */
    ghost predicate WellPlanned()
      reads this
    {
      exists qs :: PlannedAs(qs)
    }

    /** hdimage_setup up to setup_logical_partitions. */
    method SplitEntries() returns (ok: bool)
      requires Fresh()
      modifies this`align, this`parts, this`extended, this`extendedIndex
      ensures align == old(DefaultAlign()) && (ok ==> align > 0 && (cfg.tableType != NoTable ==> align % 512 == 0))
      ensures ok ==> Shaped(cfg, extended, parts) && Split(old(parts))
      ensures ok ==> forall i :: 0 <= i < |parts| && extended != Some(i) ==> parts[i].e.kind == User
      ensures ok && cfg.tableType == MbrTable ==> Count(parts, true) <= 4
      ensures old(FewEntries()) && (cfg.tableType != NoTable ==> align % 512 == 0) ==> ok
      ensures ok && old(FewEntries()) ==> parts == old(parts) && extended.None?
    {
      if align == 0 {
        align := if cfg.tableType == NoTable then 1 else 512;
      }
      if cfg.tableType != NoTable && align % 512 != 0 {
        return false;
      }
      ok := SetupLogical();
    }

    /** The list `before` is what is to be placed: base and the table areas, with base made of the entries orig. */
    ghost predicate Ready(orig: seq<Part>, base: seq<Part>, before: seq<Part>, size: nat)
      reads this`extended, this`align
    {
      && before == base + Tables(size) && Inserted(orig, base) && align > 0
      && (cfg.tableType != NoTable ==> align % 512 == 0)
      && Shaped(cfg, extended, before) && Unsized(extended, before) && SlotsFit(before) && AccountedFor(orig, before)
      && forall i :: 0 <= i < |orig| ==> orig[i].e.kind == User && !orig[i].logical
    }

    /** hdimage_setup up to the placement loop; base is the list before the tables are added. */
    method PrepareEntries() returns (ok: bool, ghost base: seq<Part>)
      requires Fresh()
      modifies this`align, this`parts, this`extended, this`extendedIndex
      ensures align == old(DefaultAlign()) && (ok ==> Ready(old(parts), base, parts, imageSize))
      ensures ok && old(FewEntries()) ==> base == old(parts) && extended.None?
      ensures old(FewEntries()) && (cfg.tableType != NoTable ==> align % 512 == 0) ==>
        (ok <==> TypesFit(old(parts) + Tables(imageSize)))
    {
      ok := SplitEntries();
      base := parts;
      if !ok { return; }
      SplitInserted(old(parts));
      AddTables(old(parts));
      ok := CheckTypes();
    }

    /** A planned configuration is accepted up to here. */
    method Prepare(ghost qs: seq<Part>, ghost planned: bool) returns (ok: bool, ghost base: seq<Part>)
      requires Fresh() && (planned ==> PlannedAs(qs))
      modifies this`align, this`parts, this`extended, this`extendedIndex
      ensures ok ==> Ready(old(parts), base, parts, imageSize) && (old(FewEntries()) ==> extended.None?)
      ensures planned ==> ok && Plan(qs)
    {
      ok, base := PrepareEntries();
    }

    /** The list without the tables: the configured entries, some of them logical, and [Extended]. */
    ghost predicate Inserted(orig: seq<Part>, base: seq<Part>)
      reads this`extended, this`align
    {
      && |base| == |orig| + (if extended.Some? then 1 else 0)
      && (forall i :: 0 <= i < |orig| ==>
            Moved(i) < |base| && base[Moved(i)] == orig[i].(logical := base[Moved(i)].logical))
      && (extended.Some? ==>
            && extended.value < |orig| && InsertedAs(orig[extended.value], base[extended.value]))
    }

    ghost predicate InsertedAs(first: Part, p: Part)
      reads this`align
    {
      && p.e.kind == ExtendedTable && p.inTable && p.align == align && !p.logical && p.size == 0
      && (first.offset == 0 ==> p.offset == 0) && (first.offset > align ==> p.offset + align == first.offset)
    }

    lemma SplitInserted(orig: seq<Part>)
      requires Split(orig) && forall i :: 0 <= i < |orig| ==> !orig[i].logical
      ensures Inserted(orig, parts)
    {
      forall i | 0 <= i < |orig|
        ensures Moved(i) < |parts| && parts[Moved(i)] == orig[i].(logical := parts[Moved(i)].logical)
      {
        SplitEntry(orig, i);
      }
      if extended.Some? {
        SplitExtended(orig);
      }
    }

    lemma SplitEntry(orig: seq<Part>, i: nat)
      requires Split(orig) && i < |orig|
      ensures Moved(i) < |parts| && parts[Moved(i)] == orig[i].(logical := parts[Moved(i)].logical)
    {
      if extended.Some? && i < extended.value {
        assert parts[..extended.value][i] == orig[..extended.value][i];
      }
    }

    lemma SplitExtended(orig: seq<Part>)
      requires Split(orig) && extended.Some?
      ensures extended.value < |orig| && extended.value < |parts|
      ensures InsertedAs(orig[extended.value], parts[extended.value])
    {
    }

    /** The table areas take no entry. */
    lemma CountTables(base: seq<Part>, size: nat, primary: bool)
      ensures Count(base + Tables(size), primary) == Count(base, primary)
    {
      CountNone(base, Tables(size), primary);
    }

    /** The extended partition takes one. */
    lemma CountSplit(orig: seq<Part>)
      requires Split(orig)
      ensures Count(parts, false) == Count(orig, false) + if extended.Some? then 1 else 0
    {
      if extended.Some? {
        CountInserted(orig, parts, extended.value);
      }
    }

    /** The areas of the partition tables are appended to the list. */
    method AddTables(ghost orig: seq<Part>)
      requires Shaped(cfg, extended, parts) && Split(orig)
      requires forall i :: 0 <= i < |parts| && extended != Some(i) ==> parts[i].e.kind == User
      modifies this`parts
      ensures parts == old(parts) + Tables(imageSize) && Shaped(cfg, extended, parts)
      ensures Count(parts, true) == Count(old(parts), true) && AccountedFor(orig, parts)
    {
      CountSplit(orig);
      CountTables(parts, imageSize, true);
      CountTables(parts, imageSize, false);
      ShapedWithTables(parts);
      parts := parts + Tables(imageSize);
    }

    lemma ShapedWithTables(base: seq<Part>)
      requires Shaped(cfg, extended, base)
      ensures Shaped(cfg, extended, base + Tables(imageSize))
    {
    }

    // -------------------------------------------------------------- what has been established

    /** The list `before` has been placed up to now; the image and the output file have their sizes. */
    ghost predicate Done(before: seq<Part>, size: nat, now: nat, initial: nat, file: nat)
      reads this
    {
      && Shaped(cfg, extended, parts) && Placed(cfg, align, extended, parts, |parts|, now)
      && FileCovers(cfg, align, parts, |parts|, file)
      && Book(cfg, align, size, Start(), extended, before, parts, |parts|, now, initial, file)
      && (if size == 0 then imageSize == now else now <= size == imageSize)
      && fileSize == if Whole() then imageSize else file
    }

    /** Entry j of the list, unless it is [Extended], is what the rules make of it. */
    lemma DoneAt(before: seq<Part>, size: nat, now: nat, initial: nat, file: nat, j: nat)
      requires Done(before, size, now, initial, file) && j < |parts|
      ensures |before| == |parts| && RuledAt(cfg, align, size, Start(), extended, before, parts, j)
    {
    }

    /** Placement leaves the table areas where they were; a backup without a place ends at now. */
    lemma TablesStay(orig: seq<Part>, base: seq<Part>, before: seq<Part>, size: nat, now: nat, initial: nat, file: nat)
      requires Ready(orig, base, before, size) && Done(before, size, now, initial, file)
      ensures TablesPlaced()
    {
      if HasGpt(cfg.tableType) {
        MbrStays(orig, base, before, size, now, initial, file);
        GptStays(orig, base, before, size, now, initial, file);
        BackupStays(orig, base, before, size, now, initial, file);
      } else if cfg.tableType != NoTable {
        MbrStays(orig, base, before, size, now, initial, file);
      }
    }

    lemma MbrStays(orig: seq<Part>, base: seq<Part>, before: seq<Part>, size: nat, now: nat, initial: nat, file: nat)
      requires Ready(orig, base, before, size) && Done(before, size, now, initial, file) && cfg.tableType != NoTable
      ensures |parts| >= if HasGpt(cfg.tableType) then 4 else 1
      ensures IsArea(parts[|parts| - if HasGpt(cfg.tableType) then 4 else 1], Mbr, 440, 72)
    {
      var k := |base|;
      assert before[k] == Tables(size)[0];
      DoneAt(before, size, now, initial, file, k);
      AreaStays(orig, base, before, size, now, initial, file, k);
    }

    lemma GptStays(orig: seq<Part>, base: seq<Part>, before: seq<Part>, size: nat, now: nat, initial: nat, file: nat)
      requires Ready(orig, base, before, size) && Done(before, size, now, initial, file) && HasGpt(cfg.tableType)
      ensures |parts| >= 4 && IsArea(parts[|parts| - 3], GptHeader, 512, 512)
      ensures IsArea(parts[|parts| - 2], GptArray, GptLocation(), 32 * 512)
    {
      var k := |base|;
      TablesAt(base, size);
      DoneAt(before, size, now, initial, file, k + 1);
      AreaStays(orig, base, before, size, now, initial, file, k + 1);
      AreaStays(orig, base, before, size, now, initial, file, k + 2);
    }

    lemma TablesAt(base: seq<Part>, size: nat)
      requires HasGpt(cfg.tableType)
      ensures var all, k := base + Tables(size), |base|;
              && |all| == k + 4 && all[k + 1] == Fake(GptHeader, 512, 512)
              && all[k + 2] == Fake(GptArray, GptLocation(), 32 * 512)
    {
    }

    lemma AreaStays(
      orig: seq<Part>, base: seq<Part>, before: seq<Part>, size: nat, now: nat, initial: nat, file: nat, k: nat)
      requires Ready(orig, base, before, size) && Done(before, size, now, initial, file) && k < |parts|
      requires before[k] == Fake(before[k].e.kind, before[k].offset, before[k].size)
      requires before[k].e.kind != ExtendedTable && before[k].size > 0 && before[k].offset > 0
      ensures IsArea(parts[k], before[k].e.kind, before[k].offset, before[k].size)
    {
      DoneAt(before, size, now, initial, file, k);
    }

    lemma BackupStays(orig: seq<Part>, base: seq<Part>, before: seq<Part>, size: nat, now: nat, initial: nat, file: nat)
      requires Ready(orig, base, before, size) && Done(before, size, now, initial, file) && HasGpt(cfg.tableType)
      ensures |parts| > 0 && 33 * 512 <= imageSize
      ensures IsArea(parts[|parts| - 1], GptBackup, imageSize - 33 * 512, 33 * 512)
      ensures size == 0 ==> Least(now, 4096, Frontier(Start(), extended, parts, |parts| - 1) + 33 * 512)
    {
      var n := |parts| - 1;
      assert before[n] == Tables(size)[3];
      DoneAt(before, size, now, initial, file, n);
      assert Sound(parts[n], now);
      BackupEnd(now, n);
    }

    lemma BackupEnd(now: nat, n: nat)
      requires n + 1 == |parts| && now == Frontier(Start(), extended, parts, |parts|) && extended != Some(n)
      ensures parts[n].End() >= Frontier(Start(), extended, parts, n) ==> now == parts[n].End()
    {
    }

    /** Placement does not change which entries take a slot. */
    lemma SlotsStay(before: seq<Part>, size: nat, now: nat, initial: nat, file: nat)
      requires Done(before, size, now, initial, file) && SlotsFit(before)
      ensures SlotsFit(parts) && (cfg.tableType != NoTable ==> Count(parts, false) == Count(before, false))
    {
      if cfg.tableType != NoTable {
        CountSame(before, parts);
      }
    }

    lemma LaidNow(orig: seq<Part>, base: seq<Part>, before: seq<Part>, size: nat, now: nat, initial: nat, file: nat)
      requires Ready(orig, base, before, size) && Done(before, size, now, initial, file)
      ensures Laid()
    {
      TablesStay(orig, base, before, size, now, initial, file);
      SlotsStay(before, size, now, initial, file);
      PlacedMonotone(cfg, align, extended, parts, |parts|, now, imageSize);
      if Whole() {
        FileCoversImage(cfg, align, extended, parts, file, imageSize);
      }
    }

    lemma FollowedNow(orig: seq<Part>, base: seq<Part>, before: seq<Part>, size: nat, now: nat, initial: nat, file: nat)
      requires Ready(orig, base, before, size) && Done(before, size, now, initial, file)
      ensures Followed(orig, size)
    {
      forall i | 0 <= i < |orig|
        ensures Moved(i) < |parts| && FollowedAt(orig, size, i)
      {
        EntryFollowed(orig, base, before, size, now, initial, file, i);
      }
      if extended.Some? {
        ExtendedFollowed(orig, base, before, size, now, initial, file);
      }
      if HasGpt(cfg.tableType) {
        BackupStays(orig, base, before, size, now, initial, file);
      }
    }

    lemma EntryFollowed(
      orig: seq<Part>, base: seq<Part>, before: seq<Part>, size: nat, now: nat, initial: nat, file: nat, i: nat)
      requires Ready(orig, base, before, size) && Done(before, size, now, initial, file) && i < |orig|
      ensures Moved(i) < |parts| && FollowedAt(orig, size, i)
    {
      var j := Moved(i);
      assert before[j] == base[j];
      DoneAt(before, size, now, initial, file, j);
    }

    lemma ExtendedFollowed(
      orig: seq<Part>, base: seq<Part>, before: seq<Part>, size: nat, now: nat, initial: nat, file: nat)
      requires Ready(orig, base, before, size) && Done(before, size, now, initial, file) && extended.Some?
      ensures extended.value < |orig| && extended.value < |parts| && ExtendedFollows(orig[extended.value])
    {
      var e := extended.value;
      assert before[e] == base[e];
      DoneAt(before, size, now, initial, file, e);
    }

    lemma HoldsNow(orig: seq<Part>, size: nat)
      requires Followed(orig, size)
      ensures Holds(orig)
    {
      forall i | 0 <= i < |orig|
        ensures Configured(orig[i].(logical := parts[Moved(i)].logical), parts[Moved(i)])
      {
        assert FollowedAt(orig, size, i);
      }
    }

    // -------------------------------------------------------------- hdimage_setup as a whole

    /** The end of hdimage_setup: the image size and the size of the output file. */
    method Finish(now: nat) returns (ok: bool)
      modifies this`imageSize, this`fileSize
      ensures ok <==> old(imageSize) == 0 || now <= old(imageSize)
      ensures imageSize == if old(imageSize) == 0 then now else old(imageSize)
      ensures ok ==> fileSize == if Whole() then imageSize else old(fileSize)
    {
      if imageSize > 0 && now > imageSize {
        return false;
      }
      if imageSize == 0 {
        imageSize := now;
      }
      if Whole() {
        fileSize := imageSize;
      }
      ok := true;
    }

    /** hdimage_setup from the placement loop on. */
    method PlaceAndFinish(ghost qs: seq<Part>, ghost planned: bool) returns (ok: bool, ghost now: nat, ghost file: nat)
      requires align > 0 && Shaped(cfg, extended, parts) && Unsized(extended, parts) && (planned ==> Plan(qs))
      modifies this`parts, this`fileSize, this`imageSize
      ensures ok ==> Done(old(parts), old(imageSize), now, old(fileSize), file)
      ensures planned ==> ok
    {
      var end;
      ok, end := PlaceAll(qs, planned);
      now, file := end, fileSize;
      if !ok { return; }
      ok := Finish(end);
    }

    /** hdimage_setup. */
    method Setup() returns (ok: bool)
      requires Fresh()
      modifies this
      ensures ok ==> Laid() && Holds(old(parts)) && Followed(old(parts), old(imageSize))
      ensures ok && old(imageSize) != 0 ==> imageSize == old(imageSize)
      ensures ok ==> Accounted(old(parts)) && (old(FewEntries()) ==> extended.None?)
      ensures ok && !Whole() ==> Reaches(cfg, align, parts, |parts|, old(fileSize), fileSize)
      ensures old(WellPlanned()) ==> ok
    {
      ghost var base;
      ghost var qs, planned := [], WellPlanned();
      if planned {
        qs :| PlannedAs(qs);
      }
      ok, base := Prepare(qs, planned);
      if !ok { return; }
      ghost var before, now, file := parts, 0, 0;
      ok, now, file := PlaceAndFinish(qs, planned);
      if ok {
        Concluded(old(parts), base, before, old(imageSize), now, old(fileSize), file);
      }
    }

    lemma Concluded(orig: seq<Part>, base: seq<Part>, before: seq<Part>, size: nat, now: nat, initial: nat, file: nat)
      requires Ready(orig, base, before, size) && Done(before, size, now, initial, file)
      ensures Laid() && Holds(orig) && Followed(orig, size) && Accounted(orig) && (size != 0 ==> imageSize == size)
      ensures !Whole() ==> Reaches(cfg, align, parts, |parts|, initial, fileSize)
    {
      LaidNow(orig, base, before, size, now, initial, file);
      FollowedNow(orig, base, before, size, now, initial, file);
      HoldsNow(orig, size);
      SlotsStay(before, size, now, initial, file);
    }
  }

  /** The entries that get a partition table entry; of these, the ones that are not logical. */
  function Count(ps: seq<Part>, primary: bool): nat {
    if ps == [] then 0
    else
      var p := ps[|ps| - 1];
      Count(ps[..|ps| - 1], primary) + if p.inTable && !(primary && p.logical) then 1 else 0
  }

  lemma {:induction false} CountStep(ps: seq<Part>, i: nat, primary: bool)
    requires i < |ps|
    ensures Count(ps[..i + 1], primary) == Count(ps[..i], primary) +
              if ps[i].inTable && !(primary && ps[i].logical) then 1 else 0
    ensures Count(ps[..i + 1], primary) <= Count(ps, primary)
  {
    assert ps[..i + 1][..i] == ps[..i];
    CountMonotone(ps, i + 1, primary);
  }

  lemma {:induction false} CountMonotone(ps: seq<Part>, i: nat, primary: bool)
    requires i <= |ps|
    ensures Count(ps[..i], primary) <= Count(ps, primary)
  {
    if i < |ps| {
      assert ps[..|ps| - 1][..i] == ps[..i];
      CountMonotone(ps[..|ps| - 1], i, primary);
    } else {
      assert ps[..i] == ps;
    }
  }

  lemma {:induction false} CountNoLogical(ps: seq<Part>)
    requires forall p :: p in ps ==> !p.logical
    ensures Count(ps, true) == Count(ps, false)
  {
    if ps != [] {
      CountNoLogical(ps[..|ps| - 1]);
    }
  }

  /** Entries that are not in the table do not count. */
  lemma {:induction false} CountNone(ps: seq<Part>, qs: seq<Part>, primary: bool)
    requires forall i :: 0 <= i < |qs| ==> !qs[i].inTable
    ensures Count(ps + qs, primary) == Count(ps, primary)
  {
    if qs == [] {
      assert ps + qs == ps;
    } else {
      CountNone(ps, qs[..|qs| - 1], primary);
      assert (ps + qs)[..|ps + qs| - 1] == ps + qs[..|qs| - 1];
    }
  }

  lemma {:induction false} CountInserted(ps: seq<Part>, qs: seq<Part>, e: nat)
    requires e < |qs| == |ps| + 1 && qs[..e] == ps[..e] && qs[e].inTable
    requires forall j :: e < j < |qs| ==> qs[j].inTable == ps[j - 1].inTable
    ensures Count(qs, false) == Count(ps, false) + 1
  {
    var n := |ps|;
    if e == n {
      assert qs[..n] == ps[..n] == ps;
    } else {
      assert qs[..n][..e] == qs[..e] && ps[..n - 1][..e] == ps[..e];
      CountInserted(ps[..n - 1], qs[..n], e);
    }
  }

  lemma {:induction false} CountSame(ps: seq<Part>, qs: seq<Part>)
    requires |ps| == |qs|
    requires forall i :: 0 <= i < |ps| ==>
      ps[i].e == qs[i].e && ps[i].logical == qs[i].logical && ps[i].inTable == qs[i].inTable
    ensures Count(ps, true) == Count(qs, true) && Count(ps, false) == Count(qs, false)
    ensures CountHybrid(ps) == CountHybrid(qs)
  {
    if ps != [] {
      CountSame(ps[..|ps| - 1], qs[..|qs| - 1]);
    }
  }
}
