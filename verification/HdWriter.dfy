/**
  hdimage_generate of genimage's image-hd.c: the order in which images, extended boot records
  and partition tables are written into the output file, and what can be read back.
 */
module HdWriter {
  import opened Common
  import opened GenimageFile
  import opened HdPlaces
  import opened HdLayout

  /** A child image's output file, with the extents map_file_extents reports for it. */
  datatype ChildFile = ChildFile(data: seq<Byte>, extents: seq<Extent>)

  /** The bytes of the tables; only their places and lengths matter here. */
  datatype Tables = Tables(mbr: seq<Byte>, header: seq<Byte>, gptArray: seq<Byte>, backupHeader: seq<Byte>,
                           ebr: nat -> seq<Byte>)

  ghost predicate Sized(t: Tables) {
    && |t.mbr| == 72 && |t.header| == 92 && |t.gptArray| == 32 * 512 && |t.backupHeader| == 92
    && forall i :: |t.ebr(i)| == 66
  }

  /** How many bytes insert_image is asked to write for an entry. */
  function WriteSize(c: Config, p: Part): nat
    requires p.e.image.Some? && p.e.image.value in c.images
  {
    if p.e.fill then p.size else c.images[p.e.image.value].size
  }

  /** The byte expected at position k of an entry: the image's, then zeros. */
  function Wanted(c: Config, files: map<string, ChildFile>, p: Part, k: nat): Byte
    requires p.e.image.Some? && p.e.image.value in c.images && p.e.image.value in files
  {
    if k < WriteSize(c, p) then At(files[p.e.image.value].data, k) else 0
  }

  predicate Inside(p: Part, x: nat) {
    p.offset <= x < p.End()
  }

  /** The image of the entry declares that x, a place in the output file, may be overwritten. */
  ghost predicate InHole(c: Config, p: Part, x: nat) {
    && p.offset <= x && p.e.image.Some? && p.e.image.value in c.images
    && var holes := c.images[p.e.image.value].holes;
       exists h :: 0 <= h < |holes| && holes[h].start <= x - p.offset < holes[h].end
  }

  ghost predicate Usable(c: Config, files: map<string, ChildFile>, ps: seq<Part>) {
    forall i :: 0 <= i < |ps| && ps[i].e.image.Some? ==>
      && ps[i].e.image.value in c.images && ps[i].e.image.value in files
      && WriteSize(c, ps[i]) <= ps[i].size
      && var f := files[ps[i].e.image.value];
         ValidExtents(f.extents, f.data, WriteSize(c, ps[i]))
  }

  /** Entry p reads back as its image, padded with zeros to its declared size. */
  ghost predicate ReadsBack(c: Config, files: map<string, ChildFile>, p: Part, f: seq<Byte>)
    requires p.e.image.Some? && p.e.image.value in c.images && p.e.image.value in files
  {
    forall x: nat :: Inside(p, x) ==> At(f, x) == Wanted(c, files, p, x - p.offset)
  }

  /** Entry p reads back as its image, up to the holes of that image. */
  ghost predicate ReadsOutsideHoles(c: Config, files: map<string, ChildFile>, p: Part, f: seq<Byte>)
    requires p.e.image.Some? && p.e.image.value in c.images && p.e.image.value in files
  {
    forall x: nat :: p.offset <= x < p.offset + WriteSize(c, p) && !InHole(c, p, x) ==>
      At(f, x) == At(files[p.e.image.value].data, x - p.offset)
  }

  ghost predicate Readable(c: Config, files: map<string, ChildFile>, p: Part, f: seq<Byte>)
    requires p.e.image.Some? && p.e.image.value in c.images && p.e.image.value in files
  {
    ReadsOutsideHoles(c, files, p, f) && (NoHoles(c) ==> ReadsBack(c, files, p, f))
  }

  /** No earlier entry with an image has the place x. */
  ghost predicate Unshared(ps: seq<Part>, i: nat, x: nat) {
    forall m :: 0 <= m < i && m < |ps| && ps[m].e.image.Some? ==> !Inside(ps[m], x)
  }

  /** What a place of entry i outside its holes holds after the first n entries. */
  ghost predicate ByteOk(c: Config, files: map<string, ChildFile>, ps: seq<Part>, n: nat, f: seq<Byte>, i: nat, x: nat)
    requires i < |ps| && ps[i].e.image.Some? && ps[i].e.image.value in c.images && ps[i].e.image.value in files
    requires ps[i].offset <= x
  {
    var k := x - ps[i].offset;
    if i < n && k < WriteSize(c, ps[i]) then At(f, x) == At(files[ps[i].e.image.value].data, k)
    else Unshared(ps, i, x) ==> At(f, x) == 0
  }

  /** After the first n entries: their images can be read, and the other places are untouched unless shared. */
  ghost predicate Written(c: Config, files: map<string, ChildFile>, ps: seq<Part>, n: nat, f: seq<Byte>)
    requires Usable(c, files, ps)
  {
    forall i, x: nat :: 0 <= i < |ps| && ps[i].e.image.Some? && Inside(ps[i], x) && !InHole(c, ps[i], x) ==>
      ByteOk(c, files, ps, n, f, i, x)
  }

  /** The write [off, off + |d|) touches entries with an image in their holes only. */
  ghost predicate Clear(c: Config, ps: seq<Part>, off: nat, d: seq<Byte>) {
    forall i, x: nat :: 0 <= i < |ps| && ps[i].e.image.Some? && Inside(ps[i], x) && off <= x < off + |d| ==>
      InHole(c, ps[i], x)
  }

  /** A write that is clear of every image changes nothing that counts. */
  lemma WriteClear(
    c: Config, files: map<string, ChildFile>, ps: seq<Part>, n: nat, f: seq<Byte>, off: nat, d: seq<Byte>)
    requires Usable(c, files, ps) && Written(c, files, ps, n, f) && Clear(c, ps, off, d)
    ensures Written(c, files, ps, n, Splat(f, off, d))
  {
    forall i, x: nat | 0 <= i < |ps| && ps[i].e.image.Some? && Inside(ps[i], x) && !InHole(c, ps[i], x)
      ensures ByteOk(c, files, ps, n, Splat(f, off, d), i, x)
    {
      assert ByteOk(c, files, ps, n, f, i, x);
      WriteAt(f, off, d, |d|, x);
    }
  }

  /** What insert_image writes for an entry. */
  ghost function ImageBytes(c: Config, files: map<string, ChildFile>, p: Part): (d: seq<Byte>)
    requires p.e.image.Some? && p.e.image.value in c.images && p.e.image.value in files
    requires var f := files[p.e.image.value]; ValidExtents(f.extents, f.data, WriteSize(c, p))
    ensures |d| == WriteSize(c, p)
  {
    var cf := files[p.e.image.value];
    Padded(Copied(Some(cf.data), cf.extents), WriteSize(c, p), 0)
  }

  /** What insert_image with pad byte 0 leaves: the file's bytes, then zeros. */
  lemma PaddedAt(s: seq<Byte>, es: seq<Extent>, size: nat, k: nat)
    requires ValidExtents(es, s, size) && k < size
    ensures Padded(Copied(Some(s), es), size, 0)[k] == At(s, k)
  {
    InsertImageExact(s, es, size, 0);
  }

  /** Where two entries share a byte, the earlier one has a hole. */
  lemma SharedInHole(c: Config, ps: seq<Part>, i: nat, j: nat, x: nat)
    requires i < |ps| && j < |ps| && Separate(c, ps, i, j) && Inside(ps[i], x) && Inside(ps[j], x)
    ensures InHole(c, ps[i], x)
  {
  }

  /** Writing the image of entry n: the entry itself. */
  lemma WriteOwn(c: Config, files: map<string, ChildFile>, ps: seq<Part>, n: nat, f: seq<Byte>, x: nat)
    requires Usable(c, files, ps) && Written(c, files, ps, n, f) && n < |ps| && ps[n].e.image.Some?
    requires Inside(ps[n], x) && !InHole(c, ps[n], x)
    ensures ByteOk(c, files, ps, n + 1, Splat(f, ps[n].offset, ImageBytes(c, files, ps[n])), n, x)
  {
    var p, cf, d := ps[n], files[ps[n].e.image.value], ImageBytes(c, files, ps[n]);
    assert ByteOk(c, files, ps, n, f, n, x);
    WriteAt(f, p.offset, d, |d|, x);
    if x - p.offset < |d| {
      PaddedAt(cf.data, cf.extents, |d|, x - p.offset);
    }
  }

  /** Writing the image of entry n: an earlier entry shares it only in holes, and later ones are still to come. */
  lemma WriteOther(c: Config, files: map<string, ChildFile>, ps: seq<Part>, n: nat, f: seq<Byte>, i: nat, x: nat)
    requires Usable(c, files, ps) && Written(c, files, ps, n, f) && n < |ps| && ps[n].e.image.Some?
    requires i < |ps| && i != n && ps[i].e.image.Some? && Inside(ps[i], x) && !InHole(c, ps[i], x)
    requires i < n ==> Separate(c, ps, i, n)
    ensures ByteOk(c, files, ps, n + 1, Splat(f, ps[n].offset, ImageBytes(c, files, ps[n])), i, x)
  {
    var d := ImageBytes(c, files, ps[n]);
    assert ByteOk(c, files, ps, n, f, i, x);
    WriteAt(f, ps[n].offset, d, |d|, x);
    if Inside(ps[n], x) && i < n {
      SharedInHole(c, ps, i, n, x);
    }
  }

  lemma WriteImage(c: Config, files: map<string, ChildFile>, ps: seq<Part>, n: nat, f: seq<Byte>)
    requires Usable(c, files, ps) && Written(c, files, ps, n, f) && n < |ps| && ps[n].e.image.Some?
    requires forall i :: 0 <= i < n && ps[i].e.image.Some? ==> Separate(c, ps, i, n)
    ensures Written(c, files, ps, n + 1, Splat(f, ps[n].offset, ImageBytes(c, files, ps[n])))
  {
    forall i, x: nat | 0 <= i < |ps| && ps[i].e.image.Some? && Inside(ps[i], x) && !InHole(c, ps[i], x)
      ensures ByteOk(c, files, ps, n + 1, Splat(f, ps[n].offset, ImageBytes(c, files, ps[n])), i, x)
    {
      if i == n {
        WriteOwn(c, files, ps, n, f, x);
      } else {
        WriteOther(c, files, ps, n, f, i, x);
      }
    }
  }

  /** No child image declares a hole. */
  ghost predicate NoHoles(c: Config) {
    forall name :: name in c.images ==> c.images[name].holes == []
  }

  /** Without holes, any two entries of a placed list other than [Extended] are disjoint. */
  lemma PlacedApart(c: Config, align: nat, ext: Option<nat>, ps: seq<Part>, now: nat, i: nat, j: nat)
    requires NoHoles(c) && Placed(c, align, ext, ps, |ps|, now) && i < |ps| && j < |ps| && i != j
    requires ps[i].e.kind != ExtendedTable && ps[j].e.kind != ExtendedTable
    ensures Apart(ps[i], ps[j])
  {
    if i < j {
      assert Separate(c, ps, i, j);
    } else {
      assert Separate(c, ps, j, i);
    }
  }

  /** Once all entries are written, each one reads back up to the holes of its image. */
  lemma WrittenOutsideHoles(c: Config, files: map<string, ChildFile>, ps: seq<Part>, f: seq<Byte>, i: nat)
    requires Usable(c, files, ps) && Written(c, files, ps, |ps|, f) && i < |ps| && ps[i].e.image.Some?
    ensures ReadsOutsideHoles(c, files, ps[i], f)
  {
    var p := ps[i];
    forall x: nat | p.offset <= x < p.offset + WriteSize(c, p) && !InHole(c, p, x)
      ensures At(f, x) == At(files[p.e.image.value].data, x - p.offset)
    {
      assert Inside(p, x);
      assert ByteOk(c, files, ps, |ps|, f, i, x);
    }
  }

  /** Without holes, it reads back to its very end. */
  lemma WrittenWhole(
    c: Config, files: map<string, ChildFile>, align: nat, ext: Option<nat>, ps: seq<Part>, now: nat, f: seq<Byte>,
    i: nat)
    requires NoHoles(c) && Placed(c, align, ext, ps, |ps|, now) && Shaped(c, ext, ps)
    requires Usable(c, files, ps) && Written(c, files, ps, |ps|, f) && i < |ps| && ps[i].e.image.Some?
    ensures ReadsBack(c, files, ps[i], f)
  {
    var p := ps[i];
    forall x: nat | Inside(p, x)
      ensures At(f, x) == Wanted(c, files, p, x - p.offset)
    {
      forall m | 0 <= m < i && ps[m].e.image.Some?
        ensures !Inside(ps[m], x)
      {
        PlacedApart(c, align, ext, ps, now, m, i);
      }
      assert !InHole(c, p, x);
      assert ByteOk(c, files, ps, |ps|, f, i, x);
    }
  }

  /** A write inside a reserved area touches images in their holes only. */
  lemma AreaClear(c: Config, align: nat, ext: Option<nat>, ps: seq<Part>, now: nat, j: nat, off: nat, d: seq<Byte>)
    requires Placed(c, align, ext, ps, |ps|, now) && Shaped(c, ext, ps) && j < |ps|
    requires ps[j].e.kind != ExtendedTable && ps[j].e.image == None
    requires ps[j].offset <= off && off + |d| <= ps[j].End()
    ensures Clear(c, ps, off, d)
  {
    forall i | j < i < |ps| && ps[i].e.image.Some?
      ensures Apart(ps[i], ps[j])
    {
      assert Separate(c, ps, j, i);
    }
    forall i, x: nat | 0 <= i < |ps| && ps[i].e.image.Some? && Inside(ps[i], x) && off <= x < off + |d|
      ensures InHole(c, ps[i], x)
    {
      if i < j {
        assert Separate(c, ps, i, j);
        SharedInHole(c, ps, i, j, x);
      }
    }
  }

  /** The extended boot record of a logical entry is clear of all images, its own included. */
  lemma EbrClear(c: Config, align: nat, ext: Option<nat>, ps: seq<Part>, now: nat, l: nat, d: seq<Byte>)
    requires Placed(c, align, ext, ps, |ps|, now) && Shaped(c, ext, ps) && l < |ps| && ps[l].logical
    requires |d| == 66 && align >= 512 && align <= ps[l].offset
    ensures Clear(c, ps, ps[l].offset - align + 446, d)
  {
    forall i | 0 <= i < |ps| && ps[i].e.image.Some?
      ensures ApartFrom(ps[i], ps[l].offset - align + 446, ps[l].offset - align + 512)
    {
      if i != l {
        assert GapFree(align, ps, i, l);
      }
    }
  }

  // ---------------------------------------------------------------- tables and boot records in the file

  /** The bytes d stand at off. */
  ghost predicate Has(f: seq<Byte>, off: nat, d: seq<Byte>) {
    forall k: nat :: k < |d| ==> At(f, off + k) == d[k]
  }

  /** From lo up to hi, g may differ from f; elsewhere it does not. */
  ghost predicate SameOutside(f: seq<Byte>, g: seq<Byte>, lo: nat, hi: nat) {
    forall x: nat :: !(lo <= x < hi) ==> At(g, x) == At(f, x)
  }

  lemma SplatHas(f: seq<Byte>, off: nat, d: seq<Byte>)
    ensures Has(Splat(f, off, d), off, d) && SameOutside(f, Splat(f, off, d), off, off + |d|)
  {
    var g := Splat(f, off, d);
    forall k: nat | k < |d|
      ensures At(g, off + k) == d[k]
    {
      WriteAt(f, off, d, |d|, off + k);
    }
    forall x: nat | !(off <= x < off + |d|)
      ensures At(g, x) == At(f, x)
    {
      WriteAt(f, off, d, |d|, x);
    }
  }

  lemma HasKept(f: seq<Byte>, g: seq<Byte>, lo: nat, hi: nat, off: nat, d: seq<Byte>)
    requires Has(f, off, d) && SameOutside(f, g, lo, hi) && (hi <= off || off + |d| <= lo)
    ensures Has(g, off, d)
  {
    forall k: nat | k < |d|
      ensures At(g, off + k) == d[k]
    {
      var x := off + k;
      assert At(g, x) == At(f, x);
    }
  }

  /** The first n entries have their boot records, if they are logical. */
  ghost predicate Ebrs(align: nat, ps: seq<Part>, t: Tables, n: nat, f: seq<Byte>) {
    forall l :: 0 <= l < n && l < |ps| && ps[l].logical ==>
      align <= ps[l].offset && Has(f, ps[l].offset - align + 446, t.ebr(l))
  }

  lemma EbrsKept(align: nat, ps: seq<Part>, t: Tables, n: nat, f: seq<Byte>, g: seq<Byte>, lo: nat, hi: nat)
    requires Ebrs(align, ps, t, n, f) && SameOutside(f, g, lo, hi) && Sized(t)
    requires forall l :: 0 <= l < n && l < |ps| && ps[l].logical ==>
      hi <= ps[l].offset - align + 446 || ps[l].offset - align + 512 <= lo
    ensures Ebrs(align, ps, t, n, g)
  {
    forall l | 0 <= l < n && l < |ps| && ps[l].logical
      ensures align <= ps[l].offset && Has(g, ps[l].offset - align + 446, t.ebr(l))
    {
      HasKept(f, g, lo, hi, ps[l].offset - align + 446, t.ebr(l));
    }
  }

  /** The boot record of entry n leaves the ones before it. */
  lemma EbrsMore(hd: HdImage, t: Tables, n: nat, f: seq<Byte>, g: seq<Byte>)
    requires hd.Laid() && Sized(t) && n < |hd.parts| && hd.parts[n].logical && hd.align <= hd.parts[n].offset
    requires Ebrs(hd.align, hd.parts, t, n, f)
    requires var off := hd.parts[n].offset - hd.align + 446; Has(g, off, t.ebr(n)) && SameOutside(f, g, off, off + 66)
    ensures Ebrs(hd.align, hd.parts, t, n + 1, g)
  {
    var off := hd.parts[n].offset - hd.align + 446;
    forall l | 0 <= l < n && hd.parts[l].logical
      ensures hd.parts[l].offset - hd.align + 512 <= off
    {
      assert hd.parts[l].End() + hd.align <= hd.parts[n].offset;
    }
    EbrsKept(hd.align, hd.parts, t, n, f, g, off, off + 66);
  }

  /** What is written inside an entry or an area leaves all boot records. */
  lemma EbrsBeside(hd: HdImage, t: Tables, n: nat, j: nat, f: seq<Byte>, g: seq<Byte>, lo: nat, hi: nat)
    requires hd.Laid() && Sized(t) && j < |hd.parts| && n <= |hd.parts| && hd.parts[j].e.kind != ExtendedTable
    requires Ebrs(hd.align, hd.parts, t, n, f) && SameOutside(f, g, lo, hi)
    requires hd.parts[j].offset <= lo && hi <= hd.parts[j].End()
    ensures Ebrs(hd.align, hd.parts, t, n, g)
  {
    forall l | 0 <= l < n && l < |hd.parts| && hd.parts[l].logical
      ensures hi <= hd.parts[l].offset - hd.align + 446 || hd.parts[l].offset - hd.align + 512 <= lo
    {
      assert Contains(hd.align, hd.parts[hd.extended.value], hd.parts[l]);
      if j != l {
        assert GapFree(hd.align, hd.parts, j, l);
      }
    }
    EbrsKept(hd.align, hd.parts, t, n, f, g, lo, hi);
  }

  /** The areas of the partition tables share nothing. */
  lemma AreasApart(hd: HdImage)
    requires hd.Laid() && HasGpt(hd.cfg.tableType)
    ensures var loc, size := hd.GptLocation(), hd.imageSize;
            && (1024 <= loc || loc + 32 * 512 <= 440)
            && (loc + 32 * 512 <= size - 33 * 512 || size <= loc)
            && (1024 <= size - 33 * 512 || size <= 440)
  {
    var n := |hd.parts|;
    assert Separate(hd.cfg, hd.parts, n - 4, n - 2) && Separate(hd.cfg, hd.parts, n - 3, n - 2);
    assert Separate(hd.cfg, hd.parts, n - 4, n - 1) && Separate(hd.cfg, hd.parts, n - 3, n - 1);
    assert Separate(hd.cfg, hd.parts, n - 2, n - 1);
  }

  /** The header and the table at the start of the image. */
  ghost predicate FrontRead(hd: HdImage, t: Tables, f: seq<Byte>)
    reads hd
  {
    Has(f, 512, t.header) && Has(f, hd.GptLocation(), t.gptArray)
  }

  /** The backup at its end. */
  ghost predicate BackupRead(hd: HdImage, t: Tables, f: seq<Byte>)
    reads hd
  {
    && 33 * 512 <= hd.imageSize
    && Has(f, hd.imageSize - 33 * 512, t.gptArray) && Has(f, hd.imageSize - 512, t.backupHeader)
  }

  /** Everything that describes the layout can be read where a reader looks for it. */
  ghost predicate TablesRead(hd: HdImage, t: Tables, f: seq<Byte>)
    reads hd
  {
    && Ebrs(hd.align, hd.parts, t, |hd.parts|, f)
    && (hd.cfg.tableType != NoTable ==> Has(f, 440, t.mbr))
    && (HasGpt(hd.cfg.tableType) ==> FrontRead(hd, t, f) && (!hd.cfg.gptNoBackup ==> BackupRead(hd, t, f)))
  }

  /** Where filled entries end at most: they are written to their full size. */
  function FillEnd(ps: seq<Part>, n: nat): nat
    requires n <= |ps|
  {
    if n == 0 then 0
    else
      var rest, p := FillEnd(ps, n - 1), ps[n - 1];
      if p.e.image.Some? && p.e.fill && p.End() > rest then p.End() else rest
  }

  /** The output file has the length setup announced exactly under this condition. */
  predicate ExpectedLength(c: Config, gptLocation: nat, ps: seq<Part>, file: nat) {
    && FillEnd(ps, |ps|) <= file
    && (c.tableType == MbrTable ==> 512 <= file)
    && (HasGpt(c.tableType) ==> gptLocation + 32 * 512 <= file)
  }

  /** hdimage_insert_ebr. */
  method WriteEbr(hd: HdImage, files: map<string, ChildFile>, t: Tables, out: OutFile, n: nat)
    requires hd.Laid() && Usable(hd.cfg, files, hd.parts) && Sized(t) && n < |hd.parts| && hd.parts[n].logical
    requires Written(hd.cfg, files, hd.parts, n, out.data) && |out.data| >= hd.fileSize
    requires Ebrs(hd.align, hd.parts, t, n, out.data)
    modifies out`data
    ensures Written(hd.cfg, files, hd.parts, n, out.data) && |out.data| == |old(out.data)|
    ensures Ebrs(hd.align, hd.parts, t, n + 1, out.data)
  {
    var off, d := hd.parts[n].offset - hd.align + 446, t.ebr(n);
    assert Contains(hd.align, hd.parts[hd.extended.value], hd.parts[n]);
    EbrClear(hd.cfg, hd.align, hd.extended, hd.parts, hd.imageSize, n, d);
    WriteClear(hd.cfg, files, hd.parts, n, out.data, off, d);
    WriteLength(out.data, off, d, |d|);
    SplatHas(out.data, off, d);
    ghost var f := out.data;
    out.InsertData(d, off);
    EbrsMore(hd, t, n, f, out.data);
  }

  /** The insert_image step of hdimage_generate. */
  method WriteChild(hd: HdImage, files: map<string, ChildFile>, out: OutFile, n: nat)
    requires hd.Laid() && Usable(hd.cfg, files, hd.parts) && n < |hd.parts|
    requires Written(hd.cfg, files, hd.parts, n, out.data) && hd.parts[n].e.image.Some?
    requires |out.data| == Max(hd.fileSize, FillEnd(hd.parts, n))
    modifies out`data
    ensures Written(hd.cfg, files, hd.parts, n + 1, out.data)
    ensures |out.data| == Max(hd.fileSize, FillEnd(hd.parts, n + 1))
    ensures SameOutside(old(out.data), out.data, hd.parts[n].offset, hd.parts[n].End())
  {
    var p := hd.parts[n];
    var child, cf := hd.cfg.images[p.e.image.value], files[p.e.image.value];
    assert Fits(hd.cfg, p, hd.fileSize) && Sound(p, hd.imageSize);
    if child.size == 0 && !p.e.fill {
      return;
    }
    var size := if p.e.fill then p.size else child.size;
    ghost var d := ImageBytes(hd.cfg, files, p);
    assert forall i :: 0 <= i < n && hd.parts[i].e.image.Some? ==> Separate(hd.cfg, hd.parts, i, n);
    WriteImage(hd.cfg, files, hd.parts, n, out.data);
    WriteLength(out.data, p.offset, d, |d|);
    SplatHas(out.data, p.offset, d);
    out.InsertImage(Some(cf.data), cf.extents, size, p.offset, 0);
  }

  /** An entry without an image. */
  lemma WrittenSkip(c: Config, files: map<string, ChildFile>, ps: seq<Part>, n: nat, f: seq<Byte>)
    requires Usable(c, files, ps) && Written(c, files, ps, n, f) && n < |ps| && ps[n].e.image.None?
    ensures Written(c, files, ps, n + 1, f)
  {
    forall i, x: nat | 0 <= i < |ps| && ps[i].e.image.Some? && Inside(ps[i], x) && !InHole(c, ps[i], x)
      ensures ByteOk(c, files, ps, n + 1, f, i, x)
    {
      assert ByteOk(c, files, ps, n, f, i, x);
    }
  }

  /** The file before round n: what has been written reads back, and it has its length. */
  ghost predicate Before(hd: HdImage, files: map<string, ChildFile>, t: Tables, n: nat, f: seq<Byte>)
    reads hd
    requires Usable(hd.cfg, files, hd.parts) && n <= |hd.parts|
  {
    && Written(hd.cfg, files, hd.parts, n, f) && Ebrs(hd.align, hd.parts, t, n, f)
    && |f| == Max(hd.fileSize, FillEnd(hd.parts, n))
  }

  /** The boot record of an entry, if it has one. */
  method WriteRecord(hd: HdImage, files: map<string, ChildFile>, t: Tables, out: OutFile, n: nat)
    requires hd.Laid() && Usable(hd.cfg, files, hd.parts) && Sized(t) && n < |hd.parts|
    requires Before(hd, files, t, n, out.data)
    modifies out`data
    ensures Before(hd, files, t, n, out.data) && Ebrs(hd.align, hd.parts, t, n + 1, out.data)
  {
    if hd.parts[n].logical {
      WriteEbr(hd, files, t, out, n);
    }
  }

  /** The image of an entry, if it has one. */
  method WriteContent(hd: HdImage, files: map<string, ChildFile>, ghost t: Tables, out: OutFile, n: nat)
    requires hd.Laid() && Usable(hd.cfg, files, hd.parts) && Sized(t) && n < |hd.parts|
    requires Before(hd, files, t, n, out.data) && Ebrs(hd.align, hd.parts, t, n + 1, out.data)
    modifies out`data
    ensures Before(hd, files, t, n + 1, out.data)
  {
    if hd.parts[n].e.image.Some? {
      ghost var f := out.data;
      WriteChild(hd, files, out, n);
      EbrsBeside(hd, t, n + 1, n, f, out.data, hd.parts[n].offset, hd.parts[n].End());
    } else {
      WrittenSkip(hd.cfg, files, hd.parts, n, out.data);
    }
  }

  /** One round of hdimage_generate: a boot record if the entry is logical, its image if it has one. */
  method WriteEntry(hd: HdImage, files: map<string, ChildFile>, t: Tables, out: OutFile, n: nat)
    requires hd.Laid() && Usable(hd.cfg, files, hd.parts) && Sized(t) && n < |hd.parts|
    requires Before(hd, files, t, n, out.data)
    modifies out`data
    ensures Before(hd, files, t, n + 1, out.data)
  {
    WriteRecord(hd, files, t, out, n);
    WriteContent(hd, files, t, out, n);
  }

  /** A file of zeros, before anything is written. */
  lemma WrittenBlank(c: Config, files: map<string, ChildFile>, ps: seq<Part>, n: nat)
    requires Usable(c, files, ps)
    ensures Written(c, files, ps, 0, Rep(0, n))
  {}

  /** The loop of hdimage_generate over the entries. */
  method WriteEntries(hd: HdImage, files: map<string, ChildFile>, t: Tables, out: OutFile)
    requires hd.Laid() && Usable(hd.cfg, files, hd.parts) && Sized(t)
    requires out.data == Rep(0, hd.fileSize)
    modifies out`data
    ensures Before(hd, files, t, |hd.parts|, out.data)
  {
    WrittenBlank(hd.cfg, files, hd.parts, hd.fileSize);
    var n := 0;
    while n < |hd.parts|
      invariant 0 <= n <= |hd.parts| && Before(hd, files, t, n, out.data)
    {
      WriteEntry(hd, files, t, out, n);
      n := n + 1;
    }
  }

  /** Whatever is to be written later, this holds of the file. */
  ghost predicate Good(hd: HdImage, files: map<string, ChildFile>, t: Tables, f: seq<Byte>)
    reads hd
    requires Usable(hd.cfg, files, hd.parts)
  {
    Written(hd.cfg, files, hd.parts, |hd.parts|, f) && Ebrs(hd.align, hd.parts, t, |hd.parts|, f)
  }

  /** One write into the reserved area j. */
  method WriteArea(
    hd: HdImage, files: map<string, ChildFile>, ghost t: Tables, out: OutFile, ghost j: nat, off: nat, d: seq<Byte>)
    requires hd.Laid() && Usable(hd.cfg, files, hd.parts) && Sized(t) && j < |hd.parts|
    requires Good(hd, files, t, out.data) && d != []
    requires hd.parts[j].e.kind != ExtendedTable && hd.parts[j].e.image == None
    requires hd.parts[j].offset <= off && off + |d| <= hd.parts[j].End()
    modifies out`data
    ensures Good(hd, files, t, out.data) && |out.data| == Max(|old(out.data)|, off + |d|)
    ensures Has(out.data, off, d) && SameOutside(old(out.data), out.data, off, off + |d|)
  {
    AreaClear(hd.cfg, hd.align, hd.extended, hd.parts, hd.imageSize, j, off, d);
    WriteClear(hd.cfg, files, hd.parts, |hd.parts|, out.data, off, d);
    WriteLength(out.data, off, d, |d|);
    SplatHas(out.data, off, d);
    ghost var f := out.data;
    out.InsertData(d, off);
    EbrsBeside(hd, t, |hd.parts|, j, f, out.data, off, off + |d|);
  }

  /** hdimage_insert_mbr. */
  method WriteMbr(hd: HdImage, files: map<string, ChildFile>, t: Tables, out: OutFile)
    requires hd.Laid() && Usable(hd.cfg, files, hd.parts) && Sized(t)
    requires hd.cfg.tableType != NoTable && Good(hd, files, t, out.data)
    modifies out`data
    ensures Good(hd, files, t, out.data) && |out.data| == Max(|old(out.data)|, 512)
    ensures Has(out.data, 440, t.mbr) && SameOutside(old(out.data), out.data, 440, 512)
  {
    ghost var n := |hd.parts|;
    WriteArea(hd, files, t, out, if HasGpt(hd.cfg.tableType) then n - 4 else n - 1, 440, t.mbr);
  }

  /** extend_file does not change what is read. */
  method Extend(hd: HdImage, files: map<string, ChildFile>, ghost t: Tables, out: OutFile) returns (ok: bool)
    requires Usable(hd.cfg, files, hd.parts) && Good(hd, files, t, out.data)
    modifies out`data
    ensures Good(hd, files, t, out.data) && SameOutside(old(out.data), out.data, 0, 0)
    ensures ok <==> |old(out.data)| <= hd.imageSize
    ensures |out.data| == if ok then hd.imageSize else |old(out.data)|
  {
    ghost var f := out.data;
    ok := out.ExtendFile(hd.imageSize);
    SameReads(hd, files, t, f, out.data);
  }

  lemma SameReads(hd: HdImage, files: map<string, ChildFile>, t: Tables, f: seq<Byte>, g: seq<Byte>)
    requires Usable(hd.cfg, files, hd.parts) && Good(hd, files, t, f) && forall x: nat :: At(g, x) == At(f, x)
    ensures Good(hd, files, t, g) && SameOutside(f, g, 0, 0)
  {
    forall i, x: nat | 0 <= i < |hd.parts| && hd.parts[i].e.image.Some? && Inside(hd.parts[i], x)
                       && !InHole(hd.cfg, hd.parts[i], x)
      ensures ByteOk(hd.cfg, files, hd.parts, |hd.parts|, g, i, x)
    {
      assert ByteOk(hd.cfg, files, hd.parts, |hd.parts|, f, i, x);
    }
  }

  /** The header and the table at the start of the image. */
  method WriteHeader(hd: HdImage, files: map<string, ChildFile>, t: Tables, out: OutFile)
    requires hd.Laid() && Usable(hd.cfg, files, hd.parts) && Sized(t) && HasGpt(hd.cfg.tableType)
    requires Good(hd, files, t, out.data)
    modifies out`data
    ensures Good(hd, files, t, out.data) && FrontRead(hd, t, out.data)
    ensures |out.data| == Max(|old(out.data)|, hd.GptLocation() + 32 * 512)
  {
    ghost var n := |hd.parts|;
    AreasApart(hd);
    WriteArea(hd, files, t, out, n - 3, 512, t.header);
    ghost var f := out.data;
    WriteArea(hd, files, t, out, n - 2, hd.GptLocation(), t.gptArray);
    HasKept(f, out.data, hd.GptLocation(), hd.GptLocation() + |t.gptArray|, 512, t.header);
  }

  /** A write elsewhere leaves the header and the table. */
  lemma FrontKept(hd: HdImage, t: Tables, f: seq<Byte>, g: seq<Byte>, lo: nat, hi: nat)
    requires Sized(t) && FrontRead(hd, t, f) && SameOutside(f, g, lo, hi)
    requires hi <= 512 || 1024 <= lo
    requires hi <= hd.GptLocation() || hd.GptLocation() + 32 * 512 <= lo
    ensures FrontRead(hd, t, g)
  {
    HasKept(f, g, lo, hi, 512, t.header);
    HasKept(f, g, lo, hi, hd.GptLocation(), t.gptArray);
  }

  /** Behind the header and the table, the file has the length of the image. */
  ghost predicate FrontGood(hd: HdImage, files: map<string, ChildFile>, t: Tables, f: seq<Byte>)
    reads hd
    requires Usable(hd.cfg, files, hd.parts)
  {
    Good(hd, files, t, f) && FrontRead(hd, t, f) && |f| == hd.imageSize
  }

  method ExtendFront(hd: HdImage, files: map<string, ChildFile>, ghost t: Tables, out: OutFile) returns (ok: bool)
    requires Usable(hd.cfg, files, hd.parts) && Sized(t)
    requires Good(hd, files, t, out.data) && FrontRead(hd, t, out.data) && |out.data| <= hd.imageSize
    modifies out`data
    ensures ok && FrontGood(hd, files, t, out.data)
  {
    ghost var f := out.data;
    ok := Extend(hd, files, t, out);
    FrontKept(hd, t, f, out.data, 0, 0);
  }

  /** The backup at the end of the image: the table, and the header behind it. */
  method WriteBackup(hd: HdImage, files: map<string, ChildFile>, t: Tables, out: OutFile) returns (ok: bool)
    requires hd.Laid() && Usable(hd.cfg, files, hd.parts) && Sized(t) && HasGpt(hd.cfg.tableType)
    requires Good(hd, files, t, out.data) && FrontRead(hd, t, out.data) && |out.data| <= hd.imageSize
    modifies out`data
    ensures ok && FrontGood(hd, files, t, out.data) && BackupRead(hd, t, out.data)
  {
    ok := ExtendFront(hd, files, t, out);
    if !ok { return; }
    BackupFits(hd);
    WriteBackupPart(hd, files, t, out, hd.imageSize - 33 * 512, t.gptArray);
    WriteBackupHeader(hd, files, t, out);
  }

  /** The header of the backup, behind its table. */
  method WriteBackupHeader(hd: HdImage, files: map<string, ChildFile>, t: Tables, out: OutFile)
    requires hd.Laid() && Usable(hd.cfg, files, hd.parts) && Sized(t) && HasGpt(hd.cfg.tableType)
    requires FrontGood(hd, files, t, out.data) && 33 * 512 <= hd.imageSize
    requires Has(out.data, hd.imageSize - 33 * 512, t.gptArray)
    modifies out`data
    ensures FrontGood(hd, files, t, out.data) && BackupRead(hd, t, out.data)
  {
    ghost var f := out.data;
    WriteBackupPart(hd, files, t, out, hd.imageSize - 512, t.backupHeader);
    HasKept(f, out.data, hd.imageSize - 512, hd.imageSize - 512 + 92, hd.imageSize - 33 * 512, t.gptArray);
  }

  lemma BackupFits(hd: HdImage)
    requires hd.Laid() && HasGpt(hd.cfg.tableType)
    ensures 33 * 512 <= hd.imageSize
  {
  }

  /** One write into the area of the backup. */
  method WriteBackupPart(
    hd: HdImage, files: map<string, ChildFile>, ghost t: Tables, out: OutFile, off: nat, d: seq<Byte>)
    requires hd.Laid() && Usable(hd.cfg, files, hd.parts) && Sized(t) && HasGpt(hd.cfg.tableType) && d != []
    requires FrontGood(hd, files, t, out.data)
    requires hd.imageSize - 33 * 512 <= off && off + |d| <= hd.imageSize
    modifies out`data
    ensures FrontGood(hd, files, t, out.data)
    ensures Has(out.data, off, d) && SameOutside(old(out.data), out.data, off, off + |d|)
  {
    ghost var f := out.data;
    AreasApart(hd);
    WriteArea(hd, files, t, out, |hd.parts| - 1, off, d);
    FrontKept(hd, t, f, out.data, off, off + |d|);
  }

  /** hdimage_insert_gpt. */
  method WriteGpt(hd: HdImage, files: map<string, ChildFile>, t: Tables, out: OutFile) returns (ok: bool)
    requires hd.Laid() && Usable(hd.cfg, files, hd.parts) && Sized(t)
    requires HasGpt(hd.cfg.tableType) && Good(hd, files, t, out.data)
    requires !hd.cfg.gptNoBackup ==> |out.data| <= hd.imageSize
    modifies out`data
    ensures ok && Good(hd, files, t, out.data) && TablesRead(hd, t, out.data)
    ensures |out.data| == if hd.cfg.gptNoBackup then Max(|old(out.data)|, hd.GptLocation() + 32 * 512) else hd.imageSize
  {
    assert hd.GptLocation() + 32 * 512 <= hd.imageSize by {
      assert Sound(hd.parts[|hd.parts| - 2], hd.imageSize);
    }
    WriteHeader(hd, files, t, out);
    if !hd.cfg.gptNoBackup {
      ok := WriteBackup(hd, files, t, out);
      if !ok { return; }
    }
    ghost var f := out.data;
    WriteMbr(hd, files, t, out);
    MbrBeside(hd, t, f, out.data);
    ok := true;
  }

  /** The MBR leaves the GPT and its backup. */
  lemma MbrBeside(hd: HdImage, t: Tables, f: seq<Byte>, g: seq<Byte>)
    requires hd.Laid() && Sized(t) && HasGpt(hd.cfg.tableType) && SameOutside(f, g, 440, 512)
    requires FrontRead(hd, t, f)
    ensures FrontRead(hd, t, g) && (BackupRead(hd, t, f) ==> BackupRead(hd, t, g))
  {
    AreasApart(hd);
    FrontKept(hd, t, f, g, 440, 512);
    if BackupRead(hd, t, f) {
      HasKept(f, g, 440, 512, hd.imageSize - 33 * 512, t.gptArray);
      HasKept(f, g, 440, 512, hd.imageSize - 512, t.backupHeader);
    }
  }

  /** Filled entries end inside the image. */
  lemma {:induction false} FillEndBound(c: Config, align: nat, ext: Option<nat>, ps: seq<Part>, n: nat, now: nat)
    requires Placed(c, align, ext, ps, |ps|, now) && n <= |ps|
    ensures FillEnd(ps, n) <= now
  {
    if n > 0 {
      FillEndBound(c, align, ext, ps, n - 1, now);
      assert Sound(ps[n - 1], now);
    }
  }

  /** With `fill`, or a GPT with its backup, the announced length is always right. */
  lemma LengthExpected(hd: HdImage)
    requires hd.Laid()
    requires hd.Whole()
    ensures ExpectedLength(hd.cfg, hd.GptLocation(), hd.parts, hd.fileSize)
  {
    FillEndBound(hd.cfg, hd.align, hd.extended, hd.parts, |hd.parts|, hd.imageSize);
    forall i | 0 <= i < |hd.parts|
      ensures hd.parts[i].End() <= hd.imageSize
    {
      assert Sound(hd.parts[i], hd.imageSize);
    }
  }

  /**
    hdimage_generate on a regular file.  Whatever the outcome of its final length check, every entry reads
    back as its image outside the holes that image declares: no other image, boot record or partition table
    overwrites it.  Without holes it reads back to its end, padded with zeros.  The boot records and tables
    stand where a reader looks for them.  The check passes exactly when the length setup announced is right.
   */
  method Generate(hd: HdImage, files: map<string, ChildFile>, t: Tables, out: OutFile) returns (ok: bool)
    requires hd.Laid() && Usable(hd.cfg, files, hd.parts) && Sized(t)
    modifies out`data
    ensures forall i :: 0 <= i < |hd.parts| && hd.parts[i].e.image.Some? ==>
              Readable(hd.cfg, files, hd.parts[i], out.data)
    ensures TablesRead(hd, t, out.data)
    ensures ok <==> ExpectedLength(hd.cfg, hd.GptLocation(), hd.parts, hd.fileSize)
    ensures ok ==> |out.data| == hd.fileSize
  {
    ok := WriteAll(hd, files, t, out);
    forall i | 0 <= i < |hd.parts| && hd.parts[i].e.image.Some?
      ensures Readable(hd.cfg, files, hd.parts[i], out.data)
    {
      WrittenOutsideHoles(hd.cfg, files, hd.parts, out.data, i);
      if NoHoles(hd.cfg) {
        WrittenWhole(hd.cfg, files, hd.align, hd.extended, hd.parts, hd.imageSize, out.data, i);
      }
    }
  }

  /** The writes of hdimage_generate, in order. */
  method WriteAll(hd: HdImage, files: map<string, ChildFile>, t: Tables, out: OutFile) returns (ok: bool)
    requires hd.Laid() && Usable(hd.cfg, files, hd.parts) && Sized(t)
    modifies out`data
    ensures Written(hd.cfg, files, hd.parts, |hd.parts|, out.data) && TablesRead(hd, t, out.data)
    ensures ok <==> ExpectedLength(hd.cfg, hd.GptLocation(), hd.parts, hd.fileSize)
    ensures ok ==> |out.data| == hd.fileSize
  {
    out.data := Rep(0, hd.fileSize);
    WriteEntries(hd, files, t, out);
    FillEndBound(hd.cfg, hd.align, hd.extended, hd.parts, |hd.parts|, hd.imageSize);
    if hd.Whole() {
      LengthExpected(hd);
    }
    ok := WriteTables(hd, files, t, out);
    if !ok { return; }
    if hd.cfg.fill {
      ghost var f := out.data;
      ok := Extend(hd, files, t, out);
      TablesKept(hd, t, f, out.data);
      if !ok { return; }
    }
    ok := |out.data| == hd.fileSize;
  }

  /** The table of the kind that is asked for, if any. */
  method WriteTables(hd: HdImage, files: map<string, ChildFile>, t: Tables, out: OutFile) returns (ok: bool)
    requires hd.Laid() && Usable(hd.cfg, files, hd.parts) && Sized(t) && Good(hd, files, t, out.data)
    requires HasGpt(hd.cfg.tableType) && !hd.cfg.gptNoBackup ==> |out.data| <= hd.imageSize
    modifies out`data
    ensures ok && Good(hd, files, t, out.data) && TablesRead(hd, t, out.data)
    ensures |out.data| == TabledLength(hd, |old(out.data)|)
  {
    ok := true;
    if HasGpt(hd.cfg.tableType) {
      ok := WriteGpt(hd, files, t, out);
    } else if hd.cfg.tableType != NoTable {
      WriteMbr(hd, files, t, out);
    }
  }

  /** How long the file is after that. */
  function TabledLength(hd: HdImage, before: nat): nat
    reads hd
  {
    if HasGpt(hd.cfg.tableType) then
      if hd.cfg.gptNoBackup then Max(before, hd.GptLocation() + 32 * 512) else hd.imageSize
    else if hd.cfg.tableType != NoTable then Max(before, 512)
    else before
  }

  lemma TablesKept(hd: HdImage, t: Tables, f: seq<Byte>, g: seq<Byte>)
    requires TablesRead(hd, t, f) && Sized(t) && SameOutside(f, g, 0, 0)
    ensures TablesRead(hd, t, g)
  {
    EbrsKept(hd.align, hd.parts, t, |hd.parts|, f, g, 0, 0);
    if hd.cfg.tableType != NoTable {
      HasKept(f, g, 0, 0, 440, t.mbr);
    }
    if HasGpt(hd.cfg.tableType) {
      FrontKept(hd, t, f, g, 0, 0);
      if !hd.cfg.gptNoBackup {
        HasKept(f, g, 0, 0, hd.imageSize - 33 * 512, t.gptArray);
        HasKept(f, g, 0, 0, hd.imageSize - 512, t.backupHeader);
      }
    }
  }

  /** Every image has a file, with sorted extents that leave out only zeros. */
  ghost predicate FilesGood(c: Config, files: map<string, ChildFile>) {
    forall name :: name in c.images ==>
      name in files && ValidExtents(files[name].extents, files[name].data, |files[name].data|)
  }

  /** What setup accepts can be written. */
  lemma LaidUsable(hd: HdImage, files: map<string, ChildFile>)
    requires hd.Laid() && FilesGood(hd.cfg, files)
    ensures Usable(hd.cfg, files, hd.parts)
  {
    forall i | 0 <= i < |hd.parts| && hd.parts[i].e.image.Some?
      ensures hd.parts[i].e.image.value in hd.cfg.images && WriteSize(hd.cfg, hd.parts[i]) <= hd.parts[i].size
    {
      assert Fits(hd.cfg, hd.parts[i], hd.fileSize);
    }
  }

  /** The configured entry q has become p, and reads back as its image if it has one. */
  ghost predicate Delivered(c: Config, files: map<string, ChildFile>, q: Part, p: Part, f: seq<Byte>) {
    && Configured(q.(logical := p.logical), p)
    && (q.e.image.Some? ==>
          q.e.image.value in c.images && q.e.image.value in files && Readable(c, files, p, f))
  }

  lemma EntryDelivered(hd: HdImage, files: map<string, ChildFile>, orig: seq<Part>, f: seq<Byte>, i: nat)
    requires hd.Holds(orig) && Usable(hd.cfg, files, hd.parts) && i < |orig|
    requires forall j :: 0 <= j < |hd.parts| && hd.parts[j].e.image.Some? ==> Readable(hd.cfg, files, hd.parts[j], f)
    ensures hd.Moved(i) < |hd.parts| && Delivered(hd.cfg, files, orig[i], hd.parts[hd.Moved(i)], f)
  {
    assert Configured(orig[i].(logical := hd.parts[hd.Moved(i)].logical), hd.parts[hd.Moved(i)]);
  }

  /**
    Setup and generate together: if both succeed, every configured entry is where its configuration
    says and reads back, byte for byte, as its image outside the holes of that image; without holes,
    padded with zeros.  A complete configuration succeeds if the file is to be as long as the image.
   */
  method Build(hd: HdImage, files: map<string, ChildFile>, t: Tables, out: OutFile) returns (ok: bool)
    requires hd.Fresh() && FilesGood(hd.cfg, files) && Sized(t)
    modifies hd, out`data
    ensures ok ==> hd.Laid() && |out.data| == hd.fileSize && TablesRead(hd, t, out.data)
    ensures ok ==> forall i :: 0 <= i < |old(hd.parts)| ==>
              && hd.Moved(i) < |hd.parts|
              && Delivered(hd.cfg, files, old(hd.parts)[i], hd.parts[hd.Moved(i)], out.data)
    ensures old(hd.WellPlanned()) && hd.Whole() ==> ok
  {
    ok := hd.Setup();
    if !ok { return; }
    LaidUsable(hd, files);
    if hd.Whole() {
      LengthExpected(hd);
    }
    ok := Generate(hd, files, t, out);
    forall i | 0 <= i < |old(hd.parts)|
      ensures hd.Moved(i) < |hd.parts|
      ensures Delivered(hd.cfg, files, old(hd.parts)[i], hd.parts[hd.Moved(i)], out.data)
    {
      EntryDelivered(hd, files, old(hd.parts), out.data, i);
    }
  }

  /** No entry has an image, and none may become logical. */
  ghost predicate Empty(hd: HdImage)
    reads hd
  {
    && hd.Fresh() && hd.FewEntries() && hd.fileSize == 0 && hd.cfg.tableType == MbrTable && !hd.cfg.fill
    && forall i :: 0 <= i < |hd.parts| ==> hd.parts[i].e.image.None?
  }

  /** Then nothing makes the announced length other than 0. */
  lemma EmptyAnnounced(hd: HdImage, orig: seq<Part>)
    requires hd.Laid() && hd.Holds(orig) && hd.Accounted(orig) && hd.extended.None? && hd.cfg.tableType == MbrTable
    requires forall i :: 0 <= i < |orig| ==> orig[i].e.image.None?
    requires Reaches(hd.cfg, hd.align, hd.parts, |hd.parts|, 0, hd.fileSize)
    ensures hd.fileSize == 0
  {
    forall j | 0 <= j < |hd.parts|
      ensures !ReachedBy(hd.cfg, hd.align, hd.parts[j], hd.fileSize)
    {
      if j < |orig| {
        assert hd.Moved(j) == j && Configured(orig[j].(logical := hd.parts[j].logical), hd.parts[j]);
      }
    }
  }

  /**
    An MBR image of partitions without images: hdimage_setup announces the length 0, and hdimage_generate
    rejects the file it has written the MBR into, also where the configuration is complete.
   */
  method EmptyPartitionRejected(hd: HdImage, files: map<string, ChildFile>, t: Tables, out: OutFile)
    returns (accepted: bool, ok: bool)
    requires Empty(hd) && FilesGood(hd.cfg, files) && Sized(t)
    modifies hd, out`data
    ensures !ok && (old(hd.WellPlanned()) ==> accepted)
  {
    ok := false;
    accepted := hd.Setup();
    if !accepted { return; }
    EmptyAnnounced(hd, old(hd.parts));
    LaidUsable(hd, files);
    ok := Generate(hd, files, t, out);
  }

  /** Such as one partition of one sector behind the MBR. */
  lemma EmptyPartitionComplete(hd: HdImage)
    requires hd.cfg == Config(MbrTable, 512, 0, 0, false, false, map[])
    requires hd.parts == [Part(Entry(User, false, false, false, 0, None), 512, 512, 512, true, false)]
    requires hd.align == 512 && hd.extended == None && hd.extendedIndex == 0 && hd.imageSize == 1024 && hd.fileSize == 0
    ensures Empty(hd) && hd.WellPlanned()
  {
    CountStep(hd.parts, 0, false);
    assert hd.parts[..0] == [] && hd.parts[..1] == hd.parts;
    var all := hd.parts + hd.Tables(1024);
    hd.GivenSuits(512, all[0], Frontier(512, None, all, 0));
    hd.GivenSuits(512, all[1], Frontier(512, None, all, 1));
    assert hd.PlannedAs(all);
  }
}
