/**
  android_sparse_generate as a whole: reading the written chunks back gives the input image,
  padded to whole blocks.
 */
module SparseImage {
  import opened Common
  import opened GenimageFile
  import opened SparseFormat
  import opened SparseExtents
  import opened Crc32
  import opened SparseWriter

  /** The input padded with zeros to whole blocks. */
  function Pad(s: seq<Byte>, blockSize: nat): (p: seq<Byte>)
    requires blockSize > 0
    ensures |p| == Up(|s|, blockSize)
  {
    s + Rep(0, Up(|s|, blockSize) - |s|)
  }

  // ---------------------------------------------------------------- blocks

  lemma NextBlock(cur: nat, end: nat, n: nat)
    requires n > 0 && Down(cur, n) == cur && cur < end <= cur + n
    ensures Up(end, n) == cur + n && Down(cur + n, n) == cur + n
  {
    var q := cur / n;
    Distribute(q, 1, n);
    QuotientOf(q + 1, n);
    var y := end - 1 + n;
    assert y == (q + 1) * n + (end - 1 - cur);
    QuotientUnique(q + 1, end - 1 - cur, y / n, y % n, n);
  }

  /** Two multiples are at least a block apart. */
  lemma Apart(a: nat, b: nat, n: nat)
    requires n > 0 && Down(a, n) == a && Down(b, n) == b && a < b
    ensures a + n <= b
  {
    if b < a + n {
      NextBlock(a, b, n);
      QuotientOf(b / n, n);
    }
  }

  /** The cursor moves from block to block, and ends where the end of the extent rounds up to. */
  lemma BlockStep(e: Extent, cur: nat, blockSize: nat, size: nat)
    requires blockSize > 0 && Down(cur, blockSize) == cur && Whole(e, blockSize, size) && e.start <= cur < e.end
    ensures Down(cur + blockSize, blockSize) == cur + blockSize <= Up(size, blockSize)
    ensures e.end <= cur + blockSize ==> Up(e.end, blockSize) == cur + blockSize
    ensures e.end < cur + blockSize ==> e.end == size
  {
    if e.end <= cur + blockSize {
      NextBlock(cur, e.end, blockSize);
      if e.end != size {
        Apart(cur, e.end, blockSize);
      }
    } else {
      NextBlock(cur, cur + 1, blockSize);
    }
  }

  /** What is read for the block at pos: now bytes, padded with zeros. */
  function ReadBlock(s: seq<Byte>, pos: nat, now: nat, blockSize: nat): (buf: seq<Byte>)
    requires pos + now <= |s| && now <= blockSize
    ensures |buf| == blockSize
  {
    s[pos..pos + now] + Rep(0, blockSize - now)
  }

  /** It is the next block of the padded image. */
  lemma BlockAt(s: seq<Byte>, p: seq<Byte>, pos: nat, now: nat, blockSize: nat)
    requires pos + now <= |s| && now <= blockSize && (now == blockSize || pos + now == |s|)
    requires |s| <= |p| && pos + blockSize <= |p| && p == s + Rep(0, |p| - |s|)
    ensures p[..pos] + ReadBlock(s, pos, now, blockSize) == p[..pos + blockSize]
  {
  }

  /** No block of the image repeats one word. */
  ghost predicate Varied(p: seq<Byte>, blockSize: nat)
    requires blockSize >= 4
  {
    forall pos: nat :: Down(pos, blockSize) == pos && pos + blockSize <= |p| ==>
      p[pos..pos + blockSize] != FillBlock(p[pos..pos + 4], blockSize)
  }

  // ---------------------------------------------------------------- zeros between the extents

  lemma {:induction false} RepeatZeros(blockSize: nat, n: nat)
    ensures Repeat(Rep(0, blockSize), n) == Rep(0, n * blockSize)
  {
    if n > 0 {
      RepeatZeros(blockSize, n - 1);
      Distribute(n - 1, 1, blockSize);
      assert Repeat(Rep(0, blockSize), n) == Rep(0, (n - 1) * blockSize) + Rep(0, blockSize);
    }
  }

  /** Nothing but zeros from lo to hi. */
  ghost predicate Zeros(p: seq<Byte>, lo: nat, hi: nat) {
    forall x :: lo <= x < hi ==> At(p, x) == 0
  }

  /** Skipping n blocks of zeros continues the image. */
  lemma SkipZeros(p: seq<Byte>, lo: nat, n: nat, blockSize: nat)
    requires lo + n * blockSize <= |p| && Zeros(p, lo, lo + n * blockSize)
    ensures p[..lo] + Repeat(Rep(0, blockSize), n) == p[..lo + n * blockSize]
  {
    RepeatZeros(blockSize, n);
    var l, r := p[..lo] + Repeat(Rep(0, blockSize), n), p[..lo + n * blockSize];
    forall x | 0 <= x < |l|
      ensures l[x] == r[x]
    {
      assert At(p, x) == p[x];
    }
  }

  /** The extents before i end by lo, those from i on start at hi or later; empty ones do not matter. */
  ghost predicate Between(bs: seq<Extent>, i: nat, lo: nat, hi: nat) {
    && (forall k :: 0 <= k < i && k < |bs| ==> bs[k].start >= bs[k].end || bs[k].end <= lo)
    && (forall k :: i <= k < |bs| ==> bs[k].start >= bs[k].end || hi <= bs[k].start)
  }

  /** Outside the rounded extents the image is zero. */
  lemma GapZero(s: seq<Byte>, es: seq<Extent>, bs: seq<Extent>, blockSize: nat, i: nat, lo: nat, hi: nat)
    requires blockSize > 0 && ValidExtents(es, s, |s|) && AlignedFrom(es, bs, blockSize, |s|)
    requires Between(bs, i, lo, hi)
    ensures Zeros(Pad(s, blockSize), lo, hi)
  {
    forall x | lo <= x < hi
      ensures At(Pad(s, blockSize), x) == 0
    {
      if x < |s| {
        assert !Covered(bs, x);
        if Covered(es, x) {
          CoveredTouched(es, blockSize, x);
        }
      }
    }
  }

  lemma CoveredTouched(es: seq<Extent>, blockSize: nat, x: nat)
    requires blockSize > 0 && Covered(es, x)
    ensures Touched(es, blockSize, x)
  {
    var i :| 0 <= i < |es| && es[i].start <= x < es[i].end;
    assert Down(es[i].start, blockSize) <= x < Up(es[i].end, blockSize);
  }

  // ---------------------------------------------------------------- writing

  /** How the block at pos is to be stored: not at all, if no extent touches it. */
  ghost function UseAt(es: seq<Extent>, p: seq<Byte>, blockSize: nat, pos: nat): Use
    requires blockSize >= 4 && pos + blockSize <= |p|
  {
    if !Touched(es, blockSize, pos) then Unused
    else if p[pos..pos + blockSize] == FillBlock(p[pos..pos + 4], blockSize) then Repeated
    else Literal
  }

  /** The first blocks, up to position n, are stored as they are to be. */
  ghost predicate Stored(uses: seq<Use>, es: seq<Extent>, p: seq<Byte>, blockSize: nat, n: nat) {
    && blockSize >= 4 && |uses| * blockSize == n <= |p|
    && forall b, pos: nat {:trigger uses[b], UseAt(es, p, blockSize, pos)} ::
         0 <= b < |uses| && pos == b * blockSize && pos + blockSize <= |p| ==> uses[b] == UseAt(es, p, blockSize, pos)
  }

  lemma StoredMore(uses: seq<Use>, u: Use, es: seq<Extent>, p: seq<Byte>, blockSize: nat, n: nat)
    requires Stored(uses, es, p, blockSize, n) && n + blockSize <= |p| && u == UseAt(es, p, blockSize, n)
    ensures Stored(uses + [u], es, p, blockSize, n + blockSize)
  {
    var more := uses + [u];
    Distribute(|uses|, 1, blockSize);
    forall b, pos: nat | 0 <= b < |more| && pos == b * blockSize && pos + blockSize <= |p|
      ensures more[b] == UseAt(es, p, blockSize, pos)
    {
      assert b < |uses| ==> more[b] == uses[b];
    }
  }

  /** No extent touches the blocks from lo up to hi. */
  ghost predicate Gap(es: seq<Extent>, blockSize: nat, lo: nat, hi: nat)
    requires blockSize > 0
  {
    forall pos: nat :: lo <= pos < hi && Down(pos, blockSize) == pos ==> !Touched(es, blockSize, pos)
  }

  lemma {:induction false} StoredGap(uses: seq<Use>, n: nat, es: seq<Extent>, p: seq<Byte>, blockSize: nat, at: nat)
    requires Stored(uses, es, p, blockSize, at) && at + n * blockSize <= |p|
    requires Gap(es, blockSize, at, at + n * blockSize)
    ensures Stored(uses + Uses(Unused, n), es, p, blockSize, at + n * blockSize)
    decreases n
  {
    if n == 0 {
      assert uses + Uses(Unused, 0) == uses;
    } else {
      QuotientOf(|uses|, blockSize);
      Distribute(1, n - 1, blockSize);
      StoredMore(uses, Unused, es, p, blockSize, at);
      StoredGap(uses + [Unused], n - 1, es, p, blockSize, at + blockSize);
      assert uses + Uses(Unused, n) == uses + [Unused] + Uses(Unused, n - 1);
    }
  }

  /** The image up to position n has been written, and its blocks are stored as they are to be. */
  ghost predicate Upto(w: SparseWriter, es: seq<Extent>, p: seq<Byte>, n: nat)
    reads w
  {
    n <= |p| && w.image == p[..n] && Stored(w.uses, es, p, w.blockSize, n)
  }

  lemma BlockVaried(s: seq<Byte>, p: seq<Byte>, pos: nat, now: nat, blockSize: nat)
    requires pos + now <= |s| && now <= blockSize && (now == blockSize || pos + now == |s|)
    requires |s| <= |p| && pos + blockSize <= |p| && p == s + Rep(0, |p| - |s|)
    requires blockSize >= 4 && Down(pos, blockSize) == pos && Varied(p, blockSize)
    ensures var buf := ReadBlock(s, pos, now, blockSize); buf != FillBlock(buf[..4], blockSize)
  {
    var buf := ReadBlock(s, pos, now, blockSize);
    assert p[pos..pos + blockSize] == buf && p[pos..pos + 4] == buf[..4];
  }

  lemma BlockUse(s: seq<Byte>, es: seq<Extent>, p: seq<Byte>, pos: nat, now: nat, blockSize: nat)
    requires pos + now <= |s| && now <= blockSize && (now == blockSize || pos + now == |s|)
    requires |s| <= |p| && pos + blockSize <= |p| && p == s + Rep(0, |p| - |s|)
    requires blockSize >= 4 && Touched(es, blockSize, pos)
    ensures var buf := ReadBlock(s, pos, now, blockSize);
            UseAt(es, p, blockSize, pos) == if buf == FillBlock(buf[..4], blockSize) then Repeated else Literal
  {
    var buf := ReadBlock(s, pos, now, blockSize);
    assert p[pos..pos + blockSize] == buf && p[pos..pos + 4] == buf[..4];
  }

  /** The next block of an extent; the input is padded at its end. */
  method WriteBlock(
    w: SparseWriter, s: seq<Byte>, ghost es: seq<Extent>, inPos: nat, now: nat, ghost p: seq<Byte>)
    requires w.Ready() && w.CrcOk() && w.Room() && w.blockSize >= 4 && w.blockSize % 4 == 0
    requires Down(inPos, w.blockSize) == inPos
    requires inPos + now <= |s| && now <= w.blockSize && (now == w.blockSize || inPos + now == |s|)
    requires |s| <= |p| && inPos + w.blockSize <= |p| && p == s + Rep(0, |p| - |s|)
    requires Upto(w, es, p, inPos) && Touched(es, w.blockSize, inPos)
    modifies w
    ensures w.Ready() && w.CrcOk() && Upto(w, es, p, inPos + w.blockSize) && w.base == old(w.base) && w.last.Some?
    ensures old(w.Solid()) && Varied(p, w.blockSize) ==> w.Solid()
  {
    BlockAt(s, p, inPos, now, w.blockSize);
    if Varied(p, w.blockSize) {
      BlockVaried(s, p, inPos, now, w.blockSize);
    }
    BlockUse(s, es, p, inPos, now, w.blockSize);
    StoredMore(w.uses, UseAt(es, p, w.blockSize, inPos), es, p, w.blockSize, inPos);
    w.AddBlock(ReadBlock(s, inPos, now, w.blockSize));
  }

  /** Exactly one chunk has been written, a raw one. */
  ghost predicate OneRaw(w: SparseWriter)
    reads w
  {
    |w.front| == 1 && w.front[0].Raw?
  }

  lemma BlockWithin(e: Extent, cur: nat, blockSize: nat)
    requires blockSize > 0 && Down(cur, blockSize) == cur && cur < e.end
    ensures cur + blockSize <= Up(e.end, blockSize)
  {
    NextBlock(cur, cur + 1, blockSize);
    UpMono(cur + 1, e.end, blockSize);
  }

  /** The extent, which is what is left after merging, touches its own bytes. */
  ghost predicate Inner(es: seq<Extent>, blockSize: nat, e: Extent)
    requires blockSize > 0
  {
    forall x :: e.start <= x < e.end ==> Touched(es, blockSize, x)
  }

  /** Inside extent e, the blocks up to cur have been written. */
  ghost predicate Within(w: SparseWriter, s: seq<Byte>, es: seq<Extent>, e: Extent, cur: nat)
    reads w
    requires w.blockSize > 0
  {
    && w.Ready() && w.CrcOk() && w.base == e.start && Upto(w, es, Pad(s, w.blockSize), cur)
    && (cur > e.start ==> w.last.Some?)
  }

  /** The block of an extent at inPos. */
  method WriteNext(w: SparseWriter, s: seq<Byte>, ghost es: seq<Extent>, e: Extent, inPos: nat) returns (now: nat)
    requires w.blockSize > 0 && w.blockSize % 4 == 0 && Within(w, s, es, e, inPos)
    requires Whole(e, w.blockSize, |s|) && Up(e.end, w.blockSize) - e.start <= w.bound
    requires e.start <= inPos < e.end && Down(inPos, w.blockSize) == inPos && Touched(es, w.blockSize, inPos)
    modifies w
    ensures Within(w, s, es, e, inPos + w.blockSize) && now == Min(e.end - inPos, w.blockSize)
    ensures var next := inPos + w.blockSize;
            Down(next, w.blockSize) == next && (next >= e.end ==> next == Up(e.end, w.blockSize))
    ensures old(w.Solid()) && Varied(Pad(s, w.blockSize), w.blockSize) ==> w.Solid()
  {
    BlockStep(e, inPos, w.blockSize, |s|);
    BlockWithin(e, inPos, w.blockSize);
    now := Min(e.end - inPos, w.blockSize);
    WriteBlock(w, s, es, inPos, now, Pad(s, w.blockSize));
  }

  /** The blocks of one extent. */
  method WriteExtent(w: SparseWriter, s: seq<Byte>, ghost es: seq<Extent>, e: Extent)
    requires w.Idle() && w.CrcOk() && w.blockSize > 0 && w.blockSize % 4 == 0
    requires w.AfterGap() && Inner(es, w.blockSize, e)
    requires Whole(e, w.blockSize, |s|) && e.start < e.end && Upto(w, es, Pad(s, w.blockSize), e.start)
    requires Up(e.end, w.blockSize) - e.start <= w.bound
    modifies w
    ensures w.Idle() && w.CrcOk() && Upto(w, es, Pad(s, w.blockSize), Up(e.end, w.blockSize))
    ensures w.front != [] && w.BeforeGap()
    ensures old(w.front) == [] && Varied(Pad(s, w.blockSize), w.blockSize) ==> OneRaw(w)
  {
    var size, inPos := e.end - e.start, e.start;
    ghost var p := Pad(s, w.blockSize);
    ghost var cur: nat := e.start;
    ghost var solid := w.front == [] && Varied(p, w.blockSize);
    w.Reset();
    while size > 0
      invariant Within(w, s, es, e, cur) && (solid ==> w.Solid())
      invariant e.start <= inPos && inPos + size == e.end
      invariant if size > 0 then inPos == cur && Down(cur, w.blockSize) == cur else cur == Up(e.end, w.blockSize)
    {
      var now := WriteNext(w, s, es, e, inPos);
      cur := cur + w.blockSize;
      size, inPos := size - now, inPos + now;
    }
    w.Close();
  }

  /** Skipping from block lo to block hi, where the image is zero. */
  method SkipTo(w: SparseWriter, ghost es: seq<Extent>, lo: nat, hi: nat, ghost p: seq<Byte>)
    requires w.blockSize > 0 && w.BeforeGap() && Gap(es, w.blockSize, lo * w.blockSize, hi * w.blockSize)
    requires w.Idle() && w.CrcOk() && lo <= hi && hi * w.blockSize <= |p|
    requires Upto(w, es, p, lo * w.blockSize) && Zeros(p, lo * w.blockSize, hi * w.blockSize)
    modifies w
    ensures w.Idle() && w.CrcOk() && Upto(w, es, p, hi * w.blockSize) && (lo == hi ==> w.front == old(w.front))
    ensures lo < hi ==> w.AfterGap()
  {
    if lo < hi {
      Distribute(lo, hi - lo, w.blockSize);
      StoredGap(w.uses, hi - lo, es, p, w.blockSize, lo * w.blockSize);
      SkipZeros(p, lo * w.blockSize, hi - lo, w.blockSize);
      w.Skip(hi - lo);
    }
  }

  /** Up to the start of extent i there is a gap; after it the next block is where its end rounds up to. */
  lemma BetweenNext(bs: seq<Extent>, i: nat, at: nat, blockSize: nat, size: nat)
    requires blockSize > 0 && i < |bs| && Spaced(bs, blockSize, size) && Between(bs, i, at, at)
    requires bs[i].start < bs[i].end
    ensures at <= bs[i].start && Between(bs, i, at, bs[i].start)
    ensures Between(bs, i + 1, Up(bs[i].end, blockSize), Up(bs[i].end, blockSize))
  {
    assert forall k :: i < k < |bs| ==> Follows(bs[i], bs[k]);
    QuotientOf(bs[i].end / blockSize, blockSize);
    assert Whole(bs[i], blockSize, size);
    if bs[i].end == size {
      assert forall k :: i < k < |bs| ==> Whole(bs[k], blockSize, size);
    }
  }

  /** The block behind the last one of an extent. */
  function EndBlock(end: nat, blockSize: nat): (n: nat)
    requires blockSize > 0
    ensures n * blockSize == Up(end, blockSize)
  {
    (end - 1 + blockSize) / blockSize
  }

  /** The gap before an extent and the extent itself; block is the next block to be written. */
  method WriteLive(w: SparseWriter, s: seq<Byte>, ghost es: seq<Extent>, e: Extent, block: nat) returns (next: nat)
    requires w.blockSize > 0 && Inner(es, w.blockSize, e) && Gap(es, w.blockSize, block * w.blockSize, e.start)
    requires w.BeforeGap() && (w.front == [] || block * w.blockSize < e.start)
    requires w.Idle() && w.CrcOk() && w.blockSize > 0 && w.blockSize % 4 == 0
    requires Whole(e, w.blockSize, |s|) && block * w.blockSize <= e.start < e.end
    requires Upto(w, es, Pad(s, w.blockSize), block * w.blockSize)
    requires Zeros(Pad(s, w.blockSize), block * w.blockSize, e.start) && Up(e.end, w.blockSize) - e.start <= w.bound
    modifies w
    ensures block == e.start == 0 && old(w.front) == [] && Varied(Pad(s, w.blockSize), w.blockSize) ==> OneRaw(w)
    ensures w.Idle() && w.CrcOk() && Upto(w, es, Pad(s, w.blockSize), Up(e.end, w.blockSize))
    ensures next * w.blockSize == Up(e.end, w.blockSize) && w.front != [] && w.BeforeGap()
  {
    var startBlock := e.start / w.blockSize;
    StartBlock(block, e, w.blockSize, |s|);
    SkipTo(w, es, block, startBlock, Pad(s, w.blockSize));
    WriteExtent(w, s, es, e);
    next := EndBlock(e.end, w.blockSize);
  }

  /** The extents from i on start behind position at. */
  ghost predicate Ahead(bs: seq<Extent>, i: nat, at: nat) {
    forall k :: i <= k < |bs| && bs[k].start < bs[k].end ==> at < bs[k].start
  }

  lemma AheadNext(bs: seq<Extent>, i: nat, blockSize: nat, size: nat)
    requires blockSize > 0 && i < |bs| && Spaced(bs, blockSize, size) && bs[i].start < bs[i].end
    ensures Ahead(bs, i + 1, Up(bs[i].end, blockSize))
  {
    UpWhole(bs[i].end, blockSize);
    assert Whole(bs[i], blockSize, size);
    forall k | i < k < |bs| && bs[k].start < bs[k].end
      ensures Up(bs[i].end, blockSize) < bs[k].start
    {
      assert Follows(bs[i], bs[k]) && Whole(bs[k], blockSize, size);
    }
  }

  lemma KeptInner(es: seq<Extent>, bs: seq<Extent>, blockSize: nat, size: nat, i: nat)
    requires blockSize > 0 && AlignedFrom(es, bs, blockSize, size) && i < |bs|
    ensures Inner(es, blockSize, bs[i])
  {
    assert Whole(bs[i], blockSize, size);
    forall x | bs[i].start <= x < bs[i].end
      ensures Touched(es, blockSize, x)
    {
      assert Covered(bs, x);
    }
  }

  /** Between the extents nothing is touched. */
  lemma GapUntouched(s: seq<Byte>, es: seq<Extent>, bs: seq<Extent>, blockSize: nat, i: nat, lo: nat, hi: nat)
    requires blockSize > 0 && AlignedFrom(es, bs, blockSize, |s|) && Between(bs, i, lo, hi) && hi <= Up(|s|, blockSize)
    ensures Gap(es, blockSize, lo, hi)
  {
    forall pos: nat | lo <= pos < hi && Down(pos, blockSize) == pos
      ensures !Touched(es, blockSize, pos)
    {
      BlockInFile(pos, |s|, blockSize);
      assert !Covered(bs, pos);
    }
  }

  /** A block that starts before the end of the padded file starts before the end of the file. */
  lemma BlockInFile(pos: nat, size: nat, blockSize: nat)
    requires blockSize > 0 && Down(pos, blockSize) == pos && pos < Up(size, blockSize)
    ensures pos < size
  {
    if size <= pos {
      UpMono(size, pos, blockSize);
      UpWhole(pos, blockSize);
    }
  }

  /** No extent, padded to whole blocks, is longer than this. */
  ghost predicate Bounded(bs: seq<Extent>, blockSize: nat, bound: nat)
    requires blockSize > 0
  {
    forall i :: 0 <= i < |bs| ==> Up(bs[i].end, blockSize) - bs[i].start <= bound
  }

  /** One turn of the writing loop. */
  method WriteOne(w: SparseWriter, s: seq<Byte>, ghost es: seq<Extent>, bs: seq<Extent>, i: nat, block: nat)
    returns (next: nat)
    requires w.Idle() && w.CrcOk() && w.blockSize > 0 && w.blockSize % 4 == 0 && i < |bs|
    requires Bounded(bs, w.blockSize, w.bound)
    requires ValidExtents(es, s, |s|) && AlignedFrom(es, bs, w.blockSize, |s|)
    requires Between(bs, i, block * w.blockSize, block * w.blockSize)
    requires Upto(w, es, Pad(s, w.blockSize), block * w.blockSize)
    requires w.BeforeGap() && (w.front == [] || Ahead(bs, i, block * w.blockSize))
    modifies w
    ensures w.Idle() && w.CrcOk() && w.BeforeGap() && (w.front == [] || Ahead(bs, i + 1, next * w.blockSize))
    ensures bs[i].start == bs[i].end ==> next == block && w.front == old(w.front)
    ensures bs[i].start < bs[i].end ==> next * w.blockSize == Up(bs[i].end, w.blockSize)
    ensures block == bs[i].start == 0 && old(w.front) == [] && Varied(Pad(s, w.blockSize), w.blockSize) ==>
      bs[i].end == 0 || OneRaw(w)
    ensures Between(bs, i + 1, next * w.blockSize, next * w.blockSize)
    ensures Upto(w, es, Pad(s, w.blockSize), next * w.blockSize)
  {
    if bs[i].end - bs[i].start == 0 {
      return block;
    }
    BetweenNext(bs, i, block * w.blockSize, w.blockSize, |s|);
    GapZero(s, es, bs, w.blockSize, i, block * w.blockSize, bs[i].start);
    GapUntouched(s, es, bs, w.blockSize, i, block * w.blockSize, bs[i].start);
    KeptInner(es, bs, w.blockSize, |s|, i);
    AheadNext(bs, i, w.blockSize, |s|);
    next := WriteLive(w, s, es, bs[i], block);
  }

  lemma StartBlock(block: nat, e: Extent, blockSize: nat, size: nat)
    requires blockSize > 0 && Whole(e, blockSize, size) && block * blockSize <= e.start
    ensures e.start == e.start / blockSize * blockSize && block <= e.start / blockSize
    ensures e.start == 0 ==> e.start / blockSize == 0
    ensures e.start <= Up(size, blockSize)
  {
    if e.start / blockSize < block {
      MulMono(e.start / blockSize + 1, block, blockSize);
    }
  }

  /** The whole image is one extent. */
  ghost predicate OneExtent(s: seq<Byte>, bs: seq<Extent>) {
    s != [] && bs != [] && bs[0] == Extent(0, |s|)
  }

  lemma OneExtentRest(s: seq<Byte>, bs: seq<Extent>, i: nat, blockSize: nat)
    requires blockSize > 0 && Spaced(bs, blockSize, |s|) && OneExtent(s, bs) && i < |bs|
    ensures i > 0 ==> bs[i] == Extent(0, 0)
  {
    assert Whole(bs[i], blockSize, |s|);
    if i > 0 {
      assert Follows(bs[0], bs[i]);
    }
  }

  lemma SameFactor(a: nat, b: nat, n: nat)
    requires n > 0 && a * n == b * n
    ensures a == b
  {
    InOrder(a, b, n);
    InOrder(b, a, n);
  }

  /** The writing loop and the trailing gap: the whole padded image has been written. */
  method WriteAll(w: SparseWriter, s: seq<Byte>, ghost es: seq<Extent>, bs: seq<Extent>, blockCount: nat)
    requires w.Idle() && w.CrcOk() && w.blockSize > 0 && w.blockSize % 4 == 0
    requires w.image == [] && w.front == [] && w.uses == []
    requires ValidExtents(es, s, |s|) && AlignedFrom(es, bs, w.blockSize, |s|) && Bounded(bs, w.blockSize, w.bound)
    requires blockCount * w.blockSize == Up(|s|, w.blockSize)
    modifies w
    ensures w.Idle() && w.CrcOk() && w.image == Pad(s, w.blockSize)
    ensures Stored(w.uses, es, Pad(s, w.blockSize), w.blockSize, |Pad(s, w.blockSize)|)
    ensures OneExtent(s, bs) && Varied(Pad(s, w.blockSize), w.blockSize) ==> OneRaw(w)
  {
    var block: nat, i: nat := 0, 0;
    ghost var p := Pad(s, w.blockSize);
    ghost var solid := OneExtent(s, bs) && Varied(p, w.blockSize);
    while i < |bs|
      invariant i <= |bs| && w.Idle() && w.CrcOk()
      invariant w.BeforeGap() && (w.front == [] || Ahead(bs, i, block * w.blockSize))
      invariant Between(bs, i, block * w.blockSize, block * w.blockSize) && Upto(w, es, p, block * w.blockSize)
      invariant solid ==> if i == 0 then block == 0 && w.front == [] else block == blockCount && OneRaw(w)
    {
      if solid {
        OneExtentRest(s, bs, i, w.blockSize);
      }
      block := WriteOne(w, s, es, bs, i, block);
      if solid && i == 0 {
        SameFactor(block, blockCount, w.blockSize);
      }
      i := i + 1;
    }
    GapZero(s, es, bs, w.blockSize, |bs|, block * w.blockSize, |p|);
    GapUntouched(s, es, bs, w.blockSize, |bs|, block * w.blockSize, |p|);
    InOrder(block, blockCount, w.blockSize);
    SkipTo(w, es, block, blockCount, p);
    assert p[..|p|] == p;
  }

  lemma InOrder(a: nat, b: nat, n: nat)
    requires n > 0 && a * n <= b * n
    ensures a <= b
  {
    if b < a {
      MulMono(b + 1, a, n);
    }
  }

  /** The chunks cs stand for the image p and end in its checksum. */
  ghost predicate Represents(cs: seq<Chunk>, p: seq<Byte>, blockSize: nat) {
    && Expand(cs, blockSize) == p && |p| == TotalBlocks(cs) * blockSize
    && cs != [] && cs[|cs| - 1].Check? && FromLe(cs[|cs| - 1].crc) == ToNat(Crc(p, Zero()))
    && forall i :: 0 <= i < |cs| - 1 ==> !cs[i].Check? && BlocksOf(cs[i]) > 0
  }

  /** Chunks that are few and short enough are read back as they were written. */
  lemma ReadBack(front: seq<Chunk>, crc: Word, p: seq<Byte>, blocks: nat, blockSize: nat, bound: nat)
    requires blockSize > 0 && |p| == blocks * blockSize && blocks + 1 < LIMIT && bound + CHUNK_HEADER < LIMIT
    requires NoneEmpty(front) && Short(front, bound) && Means(front, p, blockSize) && crc == Crc(p, Zero())
    ensures var cs := front + [Check(WordBytes(crc))];
            Decode(EncodeAll(cs), |cs|, blockSize) == Some(cs) && Represents(cs, p, blockSize) && |cs| < LIMIT
  {
    var c := Check(WordBytes(crc));
    var cs := front + [c];
    MeansElim(front, p, blockSize);
    MoreMeaning(front, c, p, blockSize);
    MeansElim(cs, p + ExpandOne(c, blockSize), blockSize);
    assert p + ExpandOne(c, blockSize) == p;
    WordBytesRead(crc);
    ExpandLength(cs, blockSize);
    SameFactor(TotalBlocks(cs), blocks, blockSize);
    forall i | 0 <= i < |cs|
      ensures Encodable(cs[i], blockSize)
    {
      ChunkEncodable(cs, blockSize, bound, i);
    }
    DecodeEncodeAll(cs, blockSize);
    ChunkCount(front, p, blocks, blockSize);
  }

  lemma ChunkCount(front: seq<Chunk>, p: seq<Byte>, blocks: nat, blockSize: nat)
    requires blockSize > 0 && |p| == blocks * blockSize && NoneEmpty(front) && Means(front, p, blockSize)
    ensures |front| <= blocks
  {
    MeansElim(front, p, blockSize);
    ExpandLength(front, blockSize);
    CountBound(front);
    SameFactor(TotalBlocks(front), blocks, blockSize);
  }

  /** Read from its header on, the file out announces its blocks and chunks, and its chunks stand for p. */
  ghost predicate ReadsAs(out: seq<Byte>, chunks: nat, blocks: nat, p: seq<Byte>, blockSize: nat) {
    && |out| >= 28 && |p| == blocks * blockSize
    && ParseHeader(out) == Header(0xed26ff3a, 1, 0, 28, 12, blockSize, blocks, chunks, 0)
    && var cs := ReadFile(out);
       cs.Some? && |cs.value| == chunks && Represents(cs.value, p, blockSize)
  }

  /** Every block is stored as it is to be, and no two neighbouring chunks could be one. */
  ghost predicate Economical(out: seq<Byte>, es: seq<Extent>, p: seq<Byte>, blockSize: nat) {
    var cs := ReadFile(out);
    cs.Some? && Distinct(cs.value) && Stored(UsesOf(cs.value), es, p, blockSize, |p|)
  }

  /** A file of complete chunks and the checksum. */
  ghost predicate Product(
    out: seq<Byte>, front: seq<Chunk>, uses: seq<Use>, es: seq<Extent>, p: seq<Byte>, blocks: nat, blockSize: nat,
    bound: nat)
  {
    && NoneEmpty(front) && Short(front, bound) && Means(front, p, blockSize) && |p| == blocks * blockSize
    && Tracks(front, uses) && Stored(uses, es, p, blockSize, |p|)
    && out == FileHeader(blockSize, blocks, |front| + 1) + EncodeAll(front + [Check(WordBytes(Crc(p, Zero())))])
  }

  lemma Assemble(
    out: seq<Byte>, front: seq<Chunk>, crc: Word, blocks: nat, p: seq<Byte>, blockSize: nat, bound: nat)
    requires 0 < blockSize < LIMIT && |p| == blocks * blockSize && blocks + 1 < LIMIT && bound + CHUNK_HEADER < LIMIT
    requires NoneEmpty(front) && Short(front, bound) && Means(front, p, blockSize) && crc == Crc(p, Zero())
    requires out == FileHeader(blockSize, blocks, |front| + 1) + EncodeAll(front + [Check(WordBytes(crc))])
    ensures ReadsAs(out, |front| + 1, blocks, p, blockSize)
  {
    var cs := front + [Check(WordBytes(crc))];
    ReadBack(front, crc, p, blocks, blockSize, bound);
    HeaderFields(blockSize, blocks, |cs|, EncodeAll(cs));
    assert out[28..] == EncodeAll(cs);
  }

  /** The chunks that are read are those that were written. */
  lemma AssembledChunks(
    out: seq<Byte>, front: seq<Chunk>, crc: Word, blocks: nat, p: seq<Byte>, blockSize: nat, bound: nat)
    requires 0 < blockSize < LIMIT && |p| == blocks * blockSize && blocks + 1 < LIMIT && bound + CHUNK_HEADER < LIMIT
    requires NoneEmpty(front) && Short(front, bound) && Means(front, p, blockSize) && crc == Crc(p, Zero())
    requires out == FileHeader(blockSize, blocks, |front| + 1) + EncodeAll(front + [Check(WordBytes(crc))])
    ensures ReadFile(out) == Some(front + [Check(WordBytes(crc))])
  {
    var cs := front + [Check(WordBytes(crc))];
    ReadBack(front, crc, p, blocks, blockSize, bound);
    HeaderFields(blockSize, blocks, |cs|, EncodeAll(cs));
    assert out[28..] == EncodeAll(cs);
  }

  /** The checksum chunk stores no block. */
  lemma CheckedUses(front: seq<Chunk>, uses: seq<Use>, w: seq<Byte>)
    requires Tracks(front, uses)
    ensures UsesOf(front + [Check(w)]) == uses && Distinct(front + [Check(w)])
  {
    TracksNew(front, Check(w), uses);
    TracksElim(front + [Check(w)], uses);
  }

  /** A file that starts with a raw chunk that is too long cannot be read. */
  lemma Unreadable(out: seq<Byte>, front: seq<Chunk>, crc: Word, blocks: nat, p: seq<Byte>, blockSize: nat)
    requires 0 < blockSize < LIMIT && |p| == blocks * blockSize && blocks < LIMIT && |p| + CHUNK_HEADER >= LIMIT
    requires |front| == 1 && front[0].Raw? && Means(front, p, blockSize)
    requires out == FileHeader(blockSize, blocks, |front| + 1) + EncodeAll(front + [Check(WordBytes(crc))])
    ensures ReadFile(out) == None
  {
    var c, d := front[0], Check(WordBytes(crc));
    assert front == [] + [c];
    MeansElim(front, p, blockSize);
    ExpandLast([], c, blockSize);
    assert Expand([], blockSize) + c.data == c.data;
    SameFactor(c.rawBlocks, blocks, blockSize);
    EncodeFront(c, [d]);
    WrappedRaw(c, EncodeAll([d]), blockSize);
    assert [c] + [d] == front + [d];
    HeaderFields(blockSize, blocks, 2, EncodeAll(front + [d]));
    assert out[28..] == EncodeAll(front + [d]);
  }

  /** What a reader makes of the file. */
  lemma Outcome(
    out: seq<Byte>, front: seq<Chunk>, uses: seq<Use>, es: seq<Extent>, p: seq<Byte>, blocks: nat, blockSize: nat,
    bound: nat)
    requires 0 < blockSize < LIMIT && blocks + 1 < LIMIT && Product(out, front, uses, es, p, blocks, blockSize, bound)
    ensures bound + CHUNK_HEADER < LIMIT ==>
              ReadsAs(out, |front| + 1, blocks, p, blockSize) && Economical(out, es, p, blockSize)
    ensures |front| == 1 && front[0].Raw? && |p| + CHUNK_HEADER >= LIMIT ==> ReadFile(out) == None
  {
    var crc := Crc(p, Zero());
    if bound + CHUNK_HEADER < LIMIT {
      Assemble(out, front, crc, blocks, p, blockSize, bound);
      AssembledChunks(out, front, crc, blocks, p, blockSize, bound);
      CheckedUses(front, uses, WordBytes(crc));
    }
    if |front| == 1 && front[0].Raw? && |p| + CHUNK_HEADER >= LIMIT {
      Unreadable(out, front, crc, blocks, p, blockSize);
    }
  }

  /** The end of the file, once the whole image p has been written. */
  method FinishFile(w: SparseWriter, ghost es: seq<Extent>, ghost p: seq<Byte>)
    returns (out: seq<Byte>, chunks: nat, ghost front: seq<Chunk>)
    requires w.Idle() && w.CrcOk() && w.image == p && |w.header| == HEADER && 0 < w.blockSize < LIMIT
    requires |p| == w.outputBlocks * w.blockSize && Stored(w.uses, es, p, w.blockSize, |p|)
    modifies w
    ensures front == old(w.front) && chunks == |front| + 1
    ensures Product(out, front, old(w.uses), es, p, w.outputBlocks, w.blockSize, w.bound)
  {
    ContinuesIsCrc(w.crc, p, Zero());
    w.Finish();
    out, chunks, front := w.out, w.inputChunks, w.front;
  }

  /** The writing part of android_sparse_generate. */
  method WriteFile(
    s: seq<Byte>, ghost es: seq<Extent>, bs: seq<Extent>, blockSize: nat, blockCount: nat, ghost bound: nat)
    returns (out: seq<Byte>, chunks: nat, ghost front: seq<Chunk>, ghost uses: seq<Use>)
    requires 0 < blockSize < LIMIT && blockSize % 4 == 0
    requires ValidExtents(es, s, |s|) && AlignedFrom(es, bs, blockSize, |s|) && Bounded(bs, blockSize, bound)
    requires blockCount * blockSize == Up(|s|, blockSize) && blockCount + 1 < LIMIT
    ensures Product(out, front, uses, es, Pad(s, blockSize), blockCount, blockSize, bound) && chunks == |front| + 1
    ensures OneExtent(s, bs) && Varied(Pad(s, blockSize), blockSize) ==> |front| == 1 && front[0].Raw?
  {
    var w := new SparseWriter(blockSize, blockCount, bound);
    WriteAll(w, s, es, bs, blockCount);
    uses := w.uses;
    out, chunks, front := FinishFile(w, es, Pad(s, blockSize));
  }

  // ---------------------------------------------------------------- runs of touched blocks

  /** The extents touch every block from lo to hi. */
  ghost predicate Run(es: seq<Extent>, blockSize: nat, lo: nat, hi: nat)
    requires blockSize > 0
  {
    lo <= hi && forall x :: lo <= x < hi ==> Touched(es, blockSize, x)
  }

  /** No such run is too long for a chunk. */
  ghost predicate RunsFit(es: seq<Extent>, blockSize: nat, size: nat)
    requires blockSize > 0
  {
    forall lo: nat, hi: nat :: Run(es, blockSize, lo, hi) && hi <= Up(size, blockSize) ==> hi - lo <= MAX
  }

  lemma UpWhole(x: nat, n: nat)
    requires n > 0
    ensures Down(x, n) == x ==> Up(x, n) == x
  {
    QuotientOf(x / n, n);
  }

  /** What is left of the extents after merging is a run, also when padded. */
  lemma MergedIsRun(es: seq<Extent>, bs: seq<Extent>, blockSize: nat, size: nat, i: nat)
    requires blockSize > 0 && AlignedFrom(es, bs, blockSize, size) && i < |bs|
    ensures Run(es, blockSize, bs[i].start, Up(bs[i].end, blockSize))
  {
    var e := bs[i];
    assert Whole(e, blockSize, size);
    UpWhole(e.end, blockSize);
    forall x | e.start <= x < Up(e.end, blockSize)
      ensures Touched(es, blockSize, x)
    {
      if x < e.end {
        assert Covered(bs, x);
      } else {
        assert e.end == size;
        SameBlock(es, e, x, blockSize, size);
      }
    }
  }

  lemma UpAgain(x: nat, n: nat)
    requires n > 0
    ensures Up(Up(x, n), n) == Up(x, n)
  {
    QuotientOf((x - 1 + n) / n, n);
  }

  /** Behind the end of the file there is only the rest of the last block. */
  lemma SameBlock(es: seq<Extent>, e: Extent, x: nat, blockSize: nat, size: nat)
    requires blockSize > 0 && size <= x < Up(size, blockSize)
    requires e.start < size && Touched(es, blockSize, size - 1)
    ensures Touched(es, blockSize, x)
  {
    var i :| 0 <= i < |es| && Down(es[i].start, blockSize) <= size - 1 < Up(es[i].end, blockSize);
    UpAgain(es[i].end, blockSize);
    UpMono(size, Up(es[i].end, blockSize), blockSize);
    assert Down(es[i].start, blockSize) <= x < Up(es[i].end, blockSize);
  }

  /** If all of the file is touched, merging leaves one extent. */
  lemma RunIsOneExtent(s: seq<Byte>, es: seq<Extent>, bs: seq<Extent>, blockSize: nat)
    requires blockSize > 0 && AlignedFrom(es, bs, blockSize, |s|) && s != [] && Run(es, blockSize, 0, |s|)
    ensures OneExtent(s, bs)
  {
    assert Covered(bs, 0);
    FirstCovers(bs, blockSize, |s|);
    assert Whole(bs[0], blockSize, |s|);
    BehindFirst(bs, blockSize, |s|);
  }

  lemma FirstCovers(bs: seq<Extent>, blockSize: nat, size: nat)
    requires blockSize > 0 && Spaced(bs, blockSize, size) && Covered(bs, 0)
    ensures bs[0].start == 0 < bs[0].end
  {
    assert forall k :: 0 < k < |bs| ==> Follows(bs[0], bs[k]);
  }

  /** The first extent that is left does not touch the next one. */
  lemma BehindFirst(bs: seq<Extent>, blockSize: nat, size: nat)
    requires blockSize > 0 && Spaced(bs, blockSize, size) && bs != []
    ensures !Covered(bs, bs[0].end)
  {
    var x := bs[0].end;
    forall k | 0 <= k < |bs|
      ensures !(bs[k].start <= x < bs[k].end)
    {
      if k > 0 {
        assert Follows(bs[0], bs[k]);
      }
    }
  }

  // ---------------------------------------------------------------- android_sparse_generate

  /** struct sparse holds the block size in 32 bits. */
  type Uint32 = n: nat | n < LIMIT

  /** block_count. */
  function Blocks(size: nat, blockSize: nat): nat
    requires blockSize > 0
  {
    (size - 1 + blockSize) / blockSize
  }

  /** One run without fill blocks. */
  ghost predicate Unbroken(s: seq<Byte>, es: seq<Extent>, blockSize: nat)
    requires blockSize >= 4
  {
    s != [] && Run(es, blockSize, 0, |s|) && Varied(Pad(s, blockSize), blockSize)
  }

  /**
    android_sparse_generate.  If no run of touched blocks is too long for a chunk, reading the file back
    gives the padded image, as many chunks and blocks as the header says, and its checksum; blocks that no
    extent touches are not stored, blocks of one repeated word are stored as that word, and no two
    neighbouring chunks could be one.  The size test of the code does not see to that: it looks at extents
    before they are merged.  An image that is one run without fill blocks and too long for a chunk cannot be
    read back.
   */
  method Generate(s: seq<Byte>, a: array<Extent>, blockSize: Uint32) returns (ok: bool, out: seq<Byte>, chunks: nat)
    requires blockSize > 0 && blockSize % 512 == 0
    requires ValidExtents(a[..], s, |s|) && Blocks(|s|, blockSize) + 1 < LIMIT
    modifies a
    ensures ok <==> forall n :: 0 <= n < |old(a[..])| ==> SizeOk(old(a[..]), n, blockSize, |s|)
    ensures RunsFit(old(a[..]), blockSize, |s|) ==> ok
    ensures ok ==> Promised(s, old(a[..]), out, chunks, blockSize)
  {
    var blockCount := Blocks(|s|, blockSize);
    ghost var es := a[..];
    ok := AlignExtents(a, blockSize, |s|);
    out, chunks := [], 0;
    if RunsFit(es, blockSize, |s|) {
      RunsAccepted(s, es, blockSize);
    }
    if !ok { return; }
    out, chunks := WriteMerged(s, es, a[..], blockSize, blockCount);
  }

  /** What a reader makes of the file that is written for the image s with extents es. */
  ghost predicate Promised(s: seq<Byte>, es: seq<Extent>, out: seq<Byte>, chunks: nat, blockSize: nat)
    requires blockSize >= 4
  {
    && (RunsFit(es, blockSize, |s|) ==>
          && ReadsAs(out, chunks, Blocks(|s|, blockSize), Pad(s, blockSize), blockSize)
          && Economical(out, es, Pad(s, blockSize), blockSize))
    && (Unbroken(s, es, blockSize) && Up(|s|, blockSize) > MAX ==> ReadFile(out) == None)
  }

  /** What is known of the merged extents, before they are written. */
  lemma MergedFacts(s: seq<Byte>, es: seq<Extent>, bs: seq<Extent>, blockSize: nat) returns (bound: nat)
    requires blockSize >= 4 && ValidExtents(es, s, |s|) && AlignedFrom(es, bs, blockSize, |s|)
    ensures Bounded(bs, blockSize, bound) && (RunsFit(es, blockSize, |s|) ==> bound + CHUNK_HEADER < LIMIT)
    ensures Unbroken(s, es, blockSize) ==> OneExtent(s, bs) && Varied(Pad(s, blockSize), blockSize)
    ensures Blocks(|s|, blockSize) * blockSize == Up(|s|, blockSize)
  {
    bound := if RunsFit(es, blockSize, |s|) then MAX else Up(|s|, blockSize);
    MergedBounded(es, bs, blockSize, |s|, bound);
    if s != [] && Run(es, blockSize, 0, |s|) {
      RunIsOneExtent(s, es, bs, blockSize);
    }
  }

  method WriteMerged(s: seq<Byte>, ghost es: seq<Extent>, bs: seq<Extent>, blockSize: nat, blockCount: nat)
    returns (out: seq<Byte>, chunks: nat)
    requires 4 <= blockSize < LIMIT && blockSize % 4 == 0
    requires ValidExtents(es, s, |s|) && AlignedFrom(es, bs, blockSize, |s|)
    requires blockCount == Blocks(|s|, blockSize) && blockCount + 1 < LIMIT
    ensures Promised(s, es, out, chunks, blockSize)
  {
    ghost var bound := MergedFacts(s, es, bs, blockSize);
    ghost var front, uses;
    out, chunks, front, uses := WriteFile(s, es, bs, blockSize, blockCount, bound);
    Outcome(out, front, uses, es, Pad(s, blockSize), blockCount, blockSize, bound);
  }

  lemma MergedBounded(es: seq<Extent>, bs: seq<Extent>, blockSize: nat, size: nat, bound: nat)
    requires blockSize > 0 && AlignedFrom(es, bs, blockSize, size)
    requires (RunsFit(es, blockSize, size) && bound == MAX) || bound == Up(size, blockSize)
    ensures Bounded(bs, blockSize, bound)
  {
    forall i | 0 <= i < |bs|
      ensures Up(bs[i].end, blockSize) - bs[i].start <= bound
    {
      MergedIsRun(es, bs, blockSize, size, i);
      assert Whole(bs[i], blockSize, size);
      UpMono(bs[i].end, size, blockSize);
    }
  }

  lemma RunsAccepted(s: seq<Byte>, es: seq<Extent>, blockSize: nat)
    requires blockSize > 0 && ValidExtents(es, s, |s|) && RunsFit(es, blockSize, |s|)
    ensures forall n :: 0 <= n < |es| ==> SizeOk(es, n, blockSize, |s|)
  {
    forall n | 0 <= n < |es|
      ensures SizeOk(es, n, blockSize, |s|)
    {
      UpMono(Min(es[n].end, |s|), |s|, blockSize);
      UpMono(Min(es[n].end, |s|), es[n].end, blockSize);
      var lo, hi := Down(es[n].start, blockSize), Up(Min(es[n].end, |s|), blockSize);
      assert lo <= hi ==> Run(es, blockSize, lo, hi);
    }
  }

  /** 4 GiB of blocks that each start with a 1, in two extents that touch. */
  function Stripes(): (s: seq<Byte>)
    ensures |s| == LIMIT
  {
    seq(LIMIT, i requires 0 <= i => if i % 4096 == 0 then 1 else 0)
  }

  function Halves(): seq<Extent> {
    [Extent(0, LIMIT / 2), Extent(LIMIT / 2, LIMIT)]
  }

  lemma HalvesAccepted()
    ensures ValidExtents(Halves(), Stripes(), LIMIT) && Run(Halves(), 4096, 0, LIMIT)
    ensures forall n :: 0 <= n < 2 ==> SizeOk(Halves(), n, 4096, LIMIT)
  {
    var es := Halves();
    forall x: nat | x < LIMIT
      ensures Covered(es, x) && Touched(es, 4096, x)
    {
      if x < LIMIT / 2 {
        assert es[0].start <= x < es[0].end;
      } else {
        assert es[1].start <= x < es[1].end;
      }
      CoveredTouched(es, 4096, x);
    }
  }

  lemma StripesVaried()
    ensures Varied(Pad(Stripes(), 4096), 4096)
  {
    var p := Pad(Stripes(), 4096);
    forall pos: nat | Down(pos, 4096) == pos && pos + 4096 <= |p|
      ensures p[pos..pos + 4096] != FillBlock(p[pos..pos + 4], 4096)
    {
      assert pos < LIMIT && p[pos] == 1 && p[pos + 4] == 0;
      assert FillBlock(p[pos..pos + 4], 4096)[4] == p[pos];
      assert p[pos..pos + 4096][4] == p[pos + 4];
    }
  }

  /** Each of them passes the size test, and the file cannot be read back. */
  method TouchingExtentsFail() returns (ok: bool, out: seq<Byte>, chunks: nat)
    ensures ok && ReadFile(out) == None
  {
    var a := new Extent[2](i requires 0 <= i < 2 => Halves()[i]);
    assert a[..] == Halves();
    HalvesAccepted();
    StripesVaried();
    ok, out, chunks := Generate(Stripes(), a, 4096);
  }
}
