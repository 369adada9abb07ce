/**
  android_sparse_generate: chunks are written with a header that is corrected once the chunk is
  complete.  The class holds the output file and the local variables of the function; the ghost
  fields say which chunks the file holds and which image they stand for.
 */
module SparseWriter {
  import opened Common
  import opened GenimageFile
  import opened SparseFormat
  import opened SparseExtents
  import opened Crc32
  import opened CrcTable

  /** Every chunk stands for at least one block. */
  predicate NoneEmpty(cs: seq<Chunk>) {
    forall i :: 0 <= i < |cs| ==> BlocksOf(cs[i]) > 0
  }

  /** The chunks are well formed and stand for the image, whatever chunks follow. */
  ghost predicate Means(cs: seq<Chunk>, image: seq<Byte>, blockSize: nat) {
    && AllWellFormed(cs, blockSize)
    && (forall rest: seq<Chunk> {:trigger image + Expand(rest, blockSize)} ::
          Expand(cs + rest, blockSize) == image + Expand(rest, blockSize))
  }

  lemma MeansIntro(cs: seq<Chunk>, image: seq<Byte>, blockSize: nat)
    requires AllWellFormed(cs, blockSize) && Expand(cs, blockSize) == image
    ensures Means(cs, image, blockSize)
  {
    forall rest: seq<Chunk>
      ensures Expand(cs + rest, blockSize) == image + Expand(rest, blockSize)
    {
      ExpandConcat(cs, rest, blockSize);
    }
  }

  lemma MeansElim(cs: seq<Chunk>, image: seq<Byte>, blockSize: nat)
    requires Means(cs, image, blockSize)
    ensures Expand(cs, blockSize) == image
  {
    assert cs + [] == cs;
    assert image + Expand([], blockSize) == image;
  }

  /** The bytes of the header and the chunks, whatever chunks follow. */
  ghost predicate Holds(bytes: seq<Byte>, header: seq<Byte>, cs: seq<Chunk>) {
    forall rest: seq<Chunk> {:trigger bytes + EncodeAll(rest)} ::
      header + EncodeAll(cs + rest) == bytes + EncodeAll(rest)
  }

  lemma HoldsIntro(bytes: seq<Byte>, header: seq<Byte>, cs: seq<Chunk>)
    requires bytes == header + EncodeAll(cs)
    ensures Holds(bytes, header, cs)
  {
    forall rest: seq<Chunk>
      ensures header + EncodeAll(cs + rest) == bytes + EncodeAll(rest)
    {
      EncodeConcat(cs, rest);
      Assoc(header, EncodeAll(cs), EncodeAll(rest));
    }
  }

  lemma HoldsElim(bytes: seq<Byte>, header: seq<Byte>, cs: seq<Chunk>)
    requires Holds(bytes, header, cs)
    ensures bytes == header + EncodeAll(cs)
  {
    assert cs + [] == cs;
    assert bytes + EncodeAll([]) == bytes;
  }

  // ---------------------------------------------------------------- sizes

  lemma {:induction false} ChunkBounds(cs: seq<Chunk>, i: nat)
    requires i < |cs|
    ensures BlocksOf(cs[i]) <= TotalBlocks(cs)
  {
    if i < |cs| - 1 {
      ChunkBounds(cs[..|cs| - 1], i);
    }
  }

  lemma {:induction false} CountBound(cs: seq<Chunk>)
    requires NoneEmpty(cs)
    ensures |cs| <= TotalBlocks(cs)
  {
    if cs != [] {
      CountBound(cs[..|cs| - 1]);
    }
  }

  /** No raw chunk holds more than this many bytes. */
  predicate Short(cs: seq<Chunk>, bound: nat) {
    forall i :: 0 <= i < |cs| && cs[i].Raw? ==> |cs[i].data| <= bound
  }

  /** The headers of chunks of few blocks and short data can be written. */
  lemma ChunkEncodable(cs: seq<Chunk>, blockSize: nat, bound: nat, i: nat)
    requires i < |cs| && AllWellFormed(cs, blockSize) && Short(cs, bound)
    requires TotalBlocks(cs) < LIMIT && bound + CHUNK_HEADER < LIMIT
    ensures Encodable(cs[i], blockSize)
  {
    ChunkBounds(cs, i);
  }

  lemma AtLeast(n: nat, blockSize: nat)
    requires blockSize > 0
    ensures n <= n * blockSize
  {
  }

  // ---------------------------------------------------------------- the open chunk

  /** The file ends in the chunk `last`, whose header at pos is still out of date. */
  ghost predicate Opened(
    out: seq<Byte>, before: seq<Byte>, last: Chunk, pos: nat, kind: nat, blocks: nat, size: nat, word: seq<Byte>)
  {
    && pos + CHUNK_HEADER <= |out| && out[..pos] == before && out[pos + CHUNK_HEADER..] == Payload(last)
    && kind == KindOf(last) && blocks == BlocksOf(last) && size == CHUNK_HEADER + |Payload(last)|
    && (last.Raw? || last.Fill?) && (last.Fill? ==> word == last.word)
  }

  /** The complete chunks and the open one, if any. */
  function All(front: seq<Chunk>, last: Option<Chunk>): seq<Chunk> {
    if last.Some? then front + [last.value] else front
  }

  /** The four bytes of the CRC as they are written. */
  function WordBytes(w: Word): (s: seq<Byte>)
    ensures |s| == 4
  {
    assert Pow2(8) == 256;
    [ToNat(w[..8]), ToNat(w[8..16]), ToNat(w[16..24]), ToNat(w[24..])]
  }

  lemma {:induction false} ToNatConcat(a: seq<bool>, b: seq<bool>)
    ensures ToNat(a + b) == ToNat(a) + Pow2(|a|) * ToNat(b)
  {
    if a == [] {
      assert a + b == b;
    } else {
      assert (a + b)[1..] == a[1..] + b;
      ToNatConcat(a[1..], b);
      Scale(ToNat(a[1..]), Pow2(|a| - 1), ToNat(b));
    }
  }

  lemma Scale(x: nat, p: nat, y: nat)
    ensures 2 * (x + p * y) == 2 * x + 2 * p * y
  {
  }

  /** Read back, lowest byte first, they are the number the word stands for. */
  lemma WordBytesRead(w: Word)
    ensures FromLe(WordBytes(w)) == ToNat(w)
  {
    var a, b, c, d := w[..8], w[8..16], w[16..24], w[24..];
    assert w == a + (b + (c + d));
    assert Pow2(8) == 256;
    ToNatConcat(a, b + (c + d));
    ToNatConcat(b, c + d);
    ToNatConcat(c, d);
    FourBytes(WordBytes(w));
  }

  lemma FourBytes(s: seq<Byte>)
    requires |s| == 4
    ensures var a: nat, b: nat, c: nat, d: nat := s[0], s[1], s[2], s[3];
            FromLe(s) == a + 256 * (b + 256 * (c + 256 * d))
  {
    var s1, s2, s3 := s[1..], s[2..], s[3..];
    assert s3[1..] == [] && s2[1..] == s3 && s1[1..] == s2;
    assert FromLe(s3) == s[3] && FromLe(s2) == s[2] + 256 * FromLe(s3);
    assert FromLe(s1) == s[1] + 256 * FromLe(s2);
  }

  /** All words of the block are the same. */
  method IsFill(buf: seq<Byte>) returns (fill: bool)
    requires |buf| >= 4 && |buf| % 4 == 0
    ensures fill <==> buf == FillBlock(buf[..4], |buf|)
  {
    fill := true;
    var i := 1;
    while i < |buf| / 4
      invariant 1 <= i <= |buf| / 4 && fill
      invariant forall x :: 0 <= x < 4 * i ==> buf[x] == buf[x % 4]
    {
      if buf[..4] != buf[4 * i..4 * i + 4] {
        fill := false;
        FillWords(buf, i);
        return;
      }
      SameWord(buf, i);
      i := i + 1;
    }
    assert forall x :: 0 <= x < |buf| ==> buf[x] == FillBlock(buf[..4], |buf|)[x];
  }

  lemma SameWord(buf: seq<Byte>, i: nat)
    requires |buf| >= 4 * i + 4 && i > 0 && buf[..4] == buf[4 * i..4 * i + 4]
    ensures forall x :: 4 * i <= x < 4 * i + 4 ==> buf[x] == buf[x % 4]
  {
    forall x | 4 * i <= x < 4 * i + 4
      ensures buf[x] == buf[x % 4]
    {
      assert buf[..4][x - 4 * i] == buf[4 * i..4 * i + 4][x - 4 * i];
    }
  }

  lemma FillWords(buf: seq<Byte>, i: nat)
    requires |buf| >= 4 * i + 4 && i > 0
    ensures buf == FillBlock(buf[..4], |buf|) ==> buf[..4] == buf[4 * i..4 * i + 4]
  {
    var f := FillBlock(buf[..4], |buf|);
    if buf == f {
      forall k | 0 <= k < 4
        ensures buf[4 * i + k] == buf[k]
      {
        assert (4 * i + k) % 4 == k;
        assert f[4 * i + k] == buf[..4][k];
      }
    }
  }

  /** Correcting the header of the open chunk completes it. */
  lemma FlushBytes(
    out: seq<Byte>, before: seq<Byte>, header: seq<Byte>, front: seq<Chunk>, last: Chunk,
    pos: nat, kind: nat, blocks: nat, size: nat, word: seq<Byte>)
    requires Opened(out, before, last, pos, kind, blocks, size, word) && Holds(before, header, front)
    ensures Holds(out[..pos] + ChunkHeader(kind, blocks, size) + out[pos + CHUNK_HEADER..], header, front + [last])
  {
    ChunkBytes(before, header, front, last);
  }

  /** A complete chunk behind the complete chunks. */
  lemma ChunkBytes(before: seq<Byte>, header: seq<Byte>, front: seq<Chunk>, c: Chunk)
    requires Holds(before, header, front)
    ensures var h := ChunkHeader(KindOf(c), BlocksOf(c), CHUNK_HEADER + |Payload(c)|);
            Holds(before + h + Payload(c), header, front + [c])
  {
    HoldsElim(before, header, front);
    EncodeLast(front, c);
    var h := ChunkHeader(KindOf(c), BlocksOf(c), CHUNK_HEADER + |Payload(c)|);
    Assoc(header, EncodeAll(front), Encode(c));
    Assoc(before, h, Payload(c));
    HoldsIntro(before + h + Payload(c), header, front + [c]);
  }

  /** A chunk behind the others adds what it stands for. */
  lemma MoreMeaning(front: seq<Chunk>, c: Chunk, image: seq<Byte>, blockSize: nat)
    requires Means(front, image, blockSize) && WellFormed(c, blockSize)
    ensures Means(front + [c], image + ExpandOne(c, blockSize), blockSize)
  {
    MeansElim(front, image, blockSize);
    ExpandLast(front, c, blockSize);
    MeansIntro(front + [c], image + ExpandOne(c, blockSize), blockSize);
  }

  lemma SkipBytes(before: seq<Byte>, header: seq<Byte>, front: seq<Chunk>, n: nat)
    requires Holds(before, header, front)
    ensures Holds(before + ChunkHeader(SPARSE_DONT_CARE, n, CHUNK_HEADER), header, front + [DontCare(n)])
  {
    ChunkBytes(before, header, front, DontCare(n));
    var bytes := before + ChunkHeader(SPARSE_DONT_CARE, n, CHUNK_HEADER);
    assert bytes + [] == bytes;
  }

  /** What a gap of n blocks adds. */
  lemma SkipMeaning(
    before: seq<Byte>, header: seq<Byte>, front: seq<Chunk>, n: nat, image: seq<Byte>, blockSize: nat, uses: seq<Use>,
    bound: nat)
    requires Holds(before, header, front) && Means(front, image, blockSize) && Tracks(front, uses)
    requires NoneEmpty(front) && Short(front, bound) && n > 0 && DiffersLast(front, DontCare(n))
    ensures var more := front + [DontCare(n)];
            && Holds(before + ChunkHeader(SPARSE_DONT_CARE, n, CHUNK_HEADER), header, more)
            && Means(more, image + Repeat(Rep(0, blockSize), n), blockSize) && Tracks(more, uses + Uses(Unused, n))
            && NoneEmpty(more) && Short(more, bound)
  {
    MoreMeaning(front, DontCare(n), image, blockSize);
    SkipBytes(before, header, front, n);
    TracksMore(front, DontCare(n), uses);
  }

  lemma NewChunk(front: seq<Chunk>, c: Chunk, image: seq<Byte>, blockSize: nat)
    requires Means(front, image, blockSize) && WellFormed(c, blockSize) && ExpandOne(c, blockSize) == []
    ensures Means(front + [c], image, blockSize)
  {
    MoreMeaning(front, c, image, blockSize);
    assert image + [] == image;
  }

  /** The open chunk c becomes d, which stands for one more block. */
  lemma GrowMeaning(front: seq<Chunk>, c: Chunk, d: Chunk, image: seq<Byte>, buf: seq<Byte>, blockSize: nat)
    requires Means(front + [c], image, blockSize) && WellFormed(d, blockSize)
    requires ExpandOne(d, blockSize) == ExpandOne(c, blockSize) + buf
    ensures Means(front + [d], image + buf, blockSize)
  {
    MeansElim(front + [c], image, blockSize);
    assert forall i :: 0 <= i < |front| ==> (front + [c])[i] == front[i];
    ExpandLast(front, c, blockSize);
    ExpandLast(front, d, blockSize);
    Assoc(Expand(front, blockSize), ExpandOne(c, blockSize), buf);
    MeansIntro(front + [d], image + buf, blockSize);
  }

  /** A header and a payload appended to a file of complete chunks. */
  lemma OpenBytes(out: seq<Byte>, c: Chunk, word: seq<Byte>)
    requires (c.Raw? || c.Fill?) && (c.Fill? ==> word == c.word)
    ensures var size := CHUNK_HEADER + |Payload(c)|;
            var all := out + ChunkHeader(KindOf(c), BlocksOf(c), size) + Payload(c);
            Opened(all, out, c, |out|, KindOf(c), BlocksOf(c), size, word)
  {
  }

  /** A block appended to the open raw chunk. */
  lemma RawBytes(
    out: seq<Byte>, before: seq<Byte>, data: seq<Byte>, n: nat, buf: seq<Byte>,
    pos: nat, kind: nat, size: nat, word: seq<Byte>)
    requires Opened(out, before, Raw(data, n), pos, kind, n, size, word)
    ensures Opened(out + buf, before, Raw(data + buf, n + 1), pos, kind, n + 1, size + |buf|, word)
  {
  }

  lemma RawMeaning(front: seq<Chunk>, data: seq<Byte>, n: nat, image: seq<Byte>, buf: seq<Byte>, blockSize: nat)
    requires Means(front + [Raw(data, n)], image, blockSize) && |buf| == blockSize
    ensures Means(front + [Raw(data + buf, n + 1)], image + buf, blockSize)
  {
    Distribute(n, 1, blockSize);
    assert (front + [Raw(data, n)])[|front|] == Raw(data, n);
    GrowMeaning(front, Raw(data, n), Raw(data + buf, n + 1), image, buf, blockSize);
  }

  lemma FillMeaning(front: seq<Chunk>, word: seq<Byte>, n: nat, image: seq<Byte>, blockSize: nat)
    requires Means(front + [Fill(word, n)], image, blockSize) && |word| == 4
    ensures Means(front + [Fill(word, n + 1)], image + FillBlock(word, blockSize), blockSize)
  {
    GrowMeaning(front, Fill(word, n), Fill(word, n + 1), image, FillBlock(word, blockSize), blockSize);
  }

  class SparseWriter {
    const blockSize: nat
    const outputBlocks: nat
    ghost const header: seq<Byte>
    /** How much is written between two gaps at most. */
    ghost const bound: nat
    var out: seq<Byte>
    var inputChunks: nat
    var kind: nat
    var blocks: nat
    var size: nat
    var pos: nat
    var fill: seq<Byte>
    var crc: Word
    ghost var before: seq<Byte>
    ghost var front: seq<Chunk>
    ghost var last: Option<Chunk>
    ghost var image: seq<Byte>
    /** The length of the image at the last gap. */
    ghost var base: nat
    /** How the blocks of the image are stored. */
    ghost var uses: seq<Use>

    /** The bytes before the open chunk are those of the complete chunks. */
    ghost predicate Complete()
      reads this`before, this`front
    {
      Holds(before, header, front)
    }

    ghost predicate Layout()
      reads this`out, this`before, this`last, this`pos, this`kind, this`blocks, this`size, this`fill
    {
      if last.None? then out == before else Opened(out, before, last.value, pos, kind, blocks, size, fill)
    }

    ghost predicate Sense()
      reads this`front, this`last, this`image
    {
      Means(All(front, last), image, blockSize) && NoneEmpty(front)
    }

    /** A raw chunk starts behind the last gap, so it is no longer than the data since. */
    ghost predicate Limits()
      reads this`front, this`last, this`image, this`base, this`uses
    {
      && Tracks(All(front, last), uses) && Short(front, bound) && base <= |image| <= base + bound
      && (last.Some? && last.value.Raw? ==> |last.value.data| <= |image| - base)
    }

    /** Nothing has been written yet, or a gap. */
    ghost predicate AfterGap()
      reads this`front
    {
      front == [] || front[|front| - 1].DontCare?
    }

    /** Nothing has been written yet, or something other than a gap. */
    ghost predicate BeforeGap()
      reads this`front
    {
      front == [] || !front[|front| - 1].DontCare?
    }

    /** Nothing but one raw chunk so far. */
    ghost predicate Solid()
      reads this`front, this`last
    {
      front == [] && (last.Some? ==> last.value.Raw?)
    }

    constructor (blockSize: nat, outputBlocks: nat, ghost bound: nat)
      ensures Complete() && CrcOk() && Layout() && Sense() && this.bound == bound
      ensures front == [] && last == None && image == [] && kind == 0 && inputChunks == 0 && uses == []
      ensures Tracks(front, uses)
      ensures this.blockSize == blockSize && this.outputBlocks == outputBlocks && |header| == HEADER
    {
      this.blockSize, this.outputBlocks, this.bound := blockSize, outputBlocks, bound;
      out := FileHeader(blockSize, outputBlocks, 0);
      header := FileHeader(blockSize, outputBlocks, 0);
      inputChunks, kind, blocks, size, pos := 0, 0, 0, 0, 0;
      fill := [];
      crc := Zero();
      before, front, last, image, base, uses := header, [], None, [], 0, [];
      CrcOfNone(Zero());
      MeansIntro([], [], blockSize);
      TracksIntro([], []);
      new;
      HoldsIntro(before, header, []);
    }

    /** flush_header over the header at pos, which completes the open chunk. */
    method Flush()
      requires Settled()
      modifies this`out, this`before, this`front, this`last
      ensures Complete() && Layout() && Sense() && Limits() && last.None?
      ensures front == old(All(front, last)) && |front| == old(|All(front, last)|)
    {
      if kind == 0 {
        return;
      }
      FlushBytes(out, before, header, front, last.value, pos, kind, blocks, size, fill);
      out := out[..pos] + ChunkHeader(kind, blocks, size) + out[pos + CHUNK_HEADER..];
      before, front, last := out, front + [last.value], None;
    }

    /** flush_header at the end of the file. */
    method Emit()
      requires kind != 0
      modifies this`out
      ensures out == old(out) + ChunkHeader(kind, blocks, size)
    {
      out := out + ChunkHeader(kind, blocks, size);
    }

    /** The header of a chunk that repeats a word, for no block yet, and the word. */
    method EmitFill(word: seq<Byte>)
      requires |word| == 4
      modifies this`pos, this`kind, this`size, this`blocks, this`fill, this`out
      ensures pos == |old(out)| && kind == SPARSE_FILL && size == CHUNK_HEADER + 4 && blocks == 0 && fill == word
      ensures out == old(out) + ChunkHeader(SPARSE_FILL, 0, CHUNK_HEADER + 4) + word
    {
      pos := |out|;
      kind, size, blocks, fill := SPARSE_FILL, CHUNK_HEADER + 4, 0, word;
      Emit();
      out := out + word;
    }

    /** A new chunk that repeats a word, for no block yet. */
    method OpenFill(word: seq<Byte>)
      requires Layout() && Sense() && Limits() && last.None? && |word| == 4 && DiffersLast(front, Fill(word, 0))
      modifies this`pos, this`kind, this`size, this`blocks, this`fill, this`out, this`last
      ensures Layout() && Sense() && Limits() && last == Some(Fill(word, 0))
    {
      ghost var c := Fill(word, 0);
      OpenBytes(out, c, word);
      NewChunk(front, c, image, blockSize);
      TracksNew(front, c, uses);
      EmitFill(word);
      last := Some(c);
    }

    /** A new chunk of literal blocks, none yet. */
    method OpenRaw()
      requires Layout() && Sense() && Limits() && last.None? && DiffersLast(front, Raw([], 0))
      modifies this`pos, this`kind, this`size, this`blocks, this`out, this`last
      ensures Layout() && Sense() && Limits() && last == Some(Raw([], 0))
    {
      pos := |out|;
      kind, size, blocks := SPARSE_RAW, CHUNK_HEADER, 0;
      OpenBytes(out, Raw([], 0), fill);
      Emit();
      NewChunk(front, Raw([], 0), image, blockSize);
      TracksNew(front, Raw([], 0), uses);
      last := Some(Raw([], 0));
    }

    /** One more block for the open fill chunk. */
    method GrowFill(ghost word: seq<Byte>, ghost n: nat, ghost buf: seq<Byte>)
      requires Layout() && Sense() && last == Some(Fill(word, n)) && |word| == 4 && buf == FillBlock(word, blockSize)
      requires Limits() && |image| + |buf| <= base + bound
      modifies this`blocks, this`last, this`image, this`uses
      ensures Layout() && Sense() && Limits() && image == old(image) + buf && last == Some(Fill(word, n + 1))
      ensures uses == old(uses) + [Repeated]
    {
      FillMeaning(front, word, n, image, blockSize);
      TracksGrow(front, Fill(word, n), Fill(word, n + 1), uses);
      blocks := blocks + 1;
      last, image, uses := Some(Fill(word, n + 1)), image + buf, uses + [Repeated];
    }

    /** One more block for the open raw chunk. */
    method GrowRaw(ghost data: seq<Byte>, ghost n: nat, buf: seq<Byte>)
      requires Layout() && Sense() && last == Some(Raw(data, n)) && |buf| == blockSize
      requires Limits() && |image| + |buf| <= base + bound
      modifies this`blocks, this`size, this`out, this`last, this`image, this`uses
      ensures Layout() && Sense() && Limits() && image == old(image) + buf && last == Some(Raw(data + buf, n + 1))
      ensures uses == old(uses) + [Literal]
    {
      RawMeaning(front, data, n, image, buf, blockSize);
      TracksGrow(front, Raw(data, n), Raw(data + buf, n + 1), uses);
      RawBytes(out, before, data, n, buf, pos, kind, size, fill);
      blocks := blocks + 1;
      size := size + |buf|;
      out := out + buf;
      last, image, uses := Some(Raw(data + buf, n + 1)), image + buf, uses + [Literal];
    }

    /** The open chunk, if any, stands for some block, and the chunk header is its own. */
    ghost predicate Settled()
      reads this`out, this`before, this`front, this`last, this`image, this`base, this`uses
      reads this`pos, this`kind, this`blocks, this`size, this`fill
    {
      && Complete() && Layout() && Sense() && (last.Some? <==> kind != 0) && (last.Some? ==> BlocksOf(last.value) > 0)
      && Limits() && (last.None? ==> AfterGap())
    }

    /** And all chunks are counted. */
    ghost predicate Ready()
      reads this
    {
      Settled() && inputChunks == |All(front, last)|
    }

    /** There is room for one more block. */
    ghost predicate Room()
      reads this`image, this`base
    {
      |image| + blockSize <= base + bound
    }

    /** The open chunk is completed, and a fill chunk opened. */
    method StartFill(word: seq<Byte>)
      requires Settled() && |word| == 4 && !(kind == SPARSE_FILL && fill == word)
      modifies this
      ensures Complete() && Layout() && Sense() && Limits() && last == Some(Fill(word, 0)) && base == old(base)
      ensures image == old(image) && crc == old(crc) && inputChunks == old(inputChunks)
      ensures uses == old(uses)
      ensures |front| == old(|All(front, last)|)
    {
      Flush();
      OpenFill(word);
    }

    /** A fill chunk that repeats the word is open, an old one or a new one. */
    method NeedFill(word: seq<Byte>) returns (ghost n: nat)
      requires Ready() && |word| == 4
      modifies this
      ensures Complete() && Layout() && Sense() && Limits() && last == Some(Fill(word, n)) && base == old(base)
      ensures image == old(image) && crc == old(crc) && inputChunks == |front| + 1 && uses == old(uses)
    {
      if kind != SPARSE_FILL || fill != word {
        inputChunks := inputChunks + 1;
        StartFill(word);
      }
      n := last.value.fillBlocks;
    }

    /** A block of equal words joins the open fill chunk if that repeats the same word. */
    method AddFill(buf: seq<Byte>)
      requires Ready() && Room() && |buf| == blockSize >= 4 && buf == FillBlock(buf[..4], blockSize)
      modifies this
      ensures uses == old(uses) + [Repeated] && last.Some?
      ensures Ready() && image == old(image) + buf && crc == old(crc) && base == old(base)
    {
      ghost var n := NeedFill(buf[..4]);
      GrowFill(buf[..4], n, buf);
    }

    method StartRaw()
      requires Settled() && kind != SPARSE_RAW
      modifies this
      ensures Complete() && Layout() && Sense() && Limits() && last == Some(Raw([], 0)) && base == old(base)
      ensures image == old(image) && crc == old(crc) && inputChunks == old(inputChunks)
      ensures uses == old(uses)
      ensures |front| == old(|All(front, last)|) && (old(front == [] && last.None?) ==> front == [])
    {
      Flush();
      OpenRaw();
    }

    method NeedRaw() returns (ghost data: seq<Byte>, ghost n: nat)
      requires Ready()
      modifies this
      ensures Complete() && Layout() && Sense() && Limits() && last == Some(Raw(data, n)) && base == old(base)
      ensures old(Solid()) ==> Solid()
      ensures image == old(image) && crc == old(crc) && inputChunks == |front| + 1 && uses == old(uses)
    {
      if kind != SPARSE_RAW {
        inputChunks := inputChunks + 1;
        StartRaw();
      }
      data, n := last.value.data, last.value.rawBlocks;
    }

    /** Any other block joins the open raw chunk. */
    method AddRaw(buf: seq<Byte>)
      requires Ready() && Room() && |buf| == blockSize
      modifies this
      ensures uses == old(uses) + [Literal] && last.Some? && (old(Solid()) ==> Solid())
      ensures Ready() && image == old(image) + buf && crc == old(crc) && base == old(base)
    {
      ghost var data, n := NeedRaw();
      GrowRaw(data, n, buf);
    }

    ghost predicate CrcOk()
      reads this`crc, this`image
    {
      Continues(crc, image, Zero())
    }

    method AddBlock(buf: seq<Byte>)
      requires Ready() && Room() && CrcOk() && |buf| == blockSize >= 4 && blockSize % 4 == 0
      modifies this
      ensures old(Solid()) && buf != FillBlock(buf[..4], blockSize) ==> Solid()
      ensures last.Some? && uses == old(uses) + [if buf == FillBlock(buf[..4], blockSize) then Repeated else Literal]
      ensures Ready() && CrcOk() && image == old(image) + buf && base == old(base)
    {
      CrcOfMore(crc, image, buf, Zero());
      crc := CrcNext(buf, crc);
      PutBlock(buf);
    }

    method PutBlock(buf: seq<Byte>)
      requires Ready() && Room() && |buf| == blockSize >= 4 && blockSize % 4 == 0
      modifies this
      ensures old(Solid()) && buf != FillBlock(buf[..4], blockSize) ==> Solid()
      ensures last.Some? && uses == old(uses) + [if buf == FillBlock(buf[..4], blockSize) then Repeated else Literal]
      ensures Ready() && image == old(image) + buf && crc == old(crc) && base == old(base)
    {
      var same := IsFill(buf);
      if same {
        AddFill(buf);
      } else {
        AddRaw(buf);
      }
    }

    /** The CRC of n blocks of zeros. */
    method CrcZeros(n: nat)
      modifies this`crc
      ensures crc == Crc(Repeat(Rep(0, blockSize), n), old(crc))
    {
      var i := 0;
      CrcNone(crc);
      while i < n
        invariant i <= n && crc == Crc(Repeat(Rep(0, blockSize), i), old(crc))
      {
        CrcAppend(Repeat(Rep(0, blockSize), i), Rep(0, blockSize), old(crc));
        crc := CrcNext(Rep(0, blockSize), crc);
        i := i + 1;
      }
    }

    /** No chunk is open. */
    ghost predicate Idle()
      reads this
    {
      && Complete() && Layout() && Sense() && last.None? && inputChunks == |front| && Short(front, bound)
      && Tracks(front, uses)
    }

    /** Before the blocks of an extent: the chunk header belongs to no chunk. */
    method Reset()
      requires Idle() && AfterGap()
      modifies this`kind, this`blocks, this`base
      ensures Ready() && last.None? && base == |image|
    {
      kind, blocks := 0, 0;
      base := |image|;
    }

    /** After the blocks of an extent: its last chunk is complete. */
    method Close()
      requires Ready()
      modifies this`out, this`before, this`front, this`last
      ensures Idle() && front == old(All(front, last))
    {
      Flush();
    }

    /** A chunk for n blocks that hold no data. */
    method Skip(n: nat)
      requires Idle() && CrcOk() && n > 0 && BeforeGap()
      modifies this
      ensures Idle() && CrcOk() && image == old(image) + Repeat(Rep(0, blockSize), n)
      ensures uses == old(uses) + Uses(Unused, n) && AfterGap()
    {
      CrcOfMore(crc, image, Repeat(Rep(0, blockSize), n), Zero());
      CrcZeros(n);
      SkipChunk(n);
    }

    method SkipChunk(n: nat)
      requires Idle() && n > 0 && BeforeGap()
      modifies this`inputChunks, this`kind, this`blocks, this`size, this`out, this`before, this`front, this`image
      modifies this`uses
      ensures Idle() && image == old(image) + Repeat(Rep(0, blockSize), n)
      ensures uses == old(uses) + Uses(Unused, n) && AfterGap()
    {
      SkipMeaning(before, header, front, n, image, blockSize, uses, bound);
      ghost var more, bytes := front + [DontCare(n)], before + ChunkHeader(SPARSE_DONT_CARE, n, CHUNK_HEADER);
      ghost var zeros, gap := Repeat(Rep(0, blockSize), n), Uses(Unused, n);
      EmitGap(n);
      before, front, image, uses := bytes, more, image + zeros, uses + gap;
    }

    /** The header of such a chunk. */
    method EmitGap(n: nat)
      modifies this`inputChunks, this`kind, this`blocks, this`size, this`out
      ensures inputChunks == old(inputChunks) + 1
      ensures out == old(out) + ChunkHeader(SPARSE_DONT_CARE, n, CHUNK_HEADER)
    {
      inputChunks := inputChunks + 1;
      kind, blocks, size := SPARSE_DONT_CARE, n, CHUNK_HEADER;
      Emit();
    }

    /** The checksum chunk. */
    method AddCheck()
      requires Idle()
      modifies this`inputChunks, this`kind, this`blocks, this`size, this`out
      ensures inputChunks == |front| + 1 && Holds(out, header, front + [Check(WordBytes(crc))])
    {
      inputChunks := inputChunks + 1;
      kind, blocks, size := SPARSE_CRC32, 0, CHUNK_HEADER + 4;
      ChunkBytes(before, header, front, Check(WordBytes(crc)));
      Emit();
      out := out + WordBytes(crc);
    }

    /** The checksum chunk, and the file header again, now with the number of chunks. */
    method Finish()
      requires Idle() && |header| == HEADER
      modifies this`inputChunks, this`kind, this`blocks, this`size, this`out
      ensures inputChunks == |front| + 1
      ensures out == FileHeader(blockSize, outputBlocks, inputChunks) + EncodeAll(front + [Check(WordBytes(crc))])
    {
      AddCheck();
      HoldsElim(out, header, front + [Check(WordBytes(crc))]);
      out := FileHeader(blockSize, outputBlocks, inputChunks) + out[HEADER..];
    }
  }

  lemma CrcNone(c: Word)
    ensures Crc([], c) == c
  {
    assert Not(Not(c)) == c;
  }
}
