/**
  The Android sparse image format: the bytes of the file header and of the chunks written by
  genimage's image-android-sparse.c, a parser for them, and the image they stand for.
 */
module SparseFormat {
  import opened Common
  import opened GenimageFile

  /** Chunks; a Fill repeats its 4 bytes, a Raw holds whole blocks, a Check holds the CRC. */
  datatype Chunk =
    | Raw(data: seq<Byte>, rawBlocks: nat)
    | Fill(word: seq<Byte>, fillBlocks: nat)
    | DontCare(skipBlocks: nat)
    | Check(crc: seq<Byte>)

  const SPARSE_RAW: nat := 0xCAC1
  const SPARSE_FILL: nat := 0xCAC2
  const SPARSE_DONT_CARE: nat := 0xCAC3
  const SPARSE_CRC32: nat := 0xCAC4

  const MAGIC: nat := 0xed26ff3a
  const HEADER: nat := 28
  const CHUNK_HEADER: nat := 12

  const LIMIT: nat := 0x1_0000_0000

  // ---------------------------------------------------------------- numbers

  /** Byte i of n, lowest first. */
  function Digit(n: nat, i: nat): Byte
    decreases i
  {
    if i == 0 then n % 256 else Digit(n / 256, i - 1)
  }

  /** The k low bytes of n, lowest first. */
  function Le(n: nat, k: nat): (s: seq<Byte>)
    ensures |s| == k
  {
    seq(k, i requires 0 <= i => Digit(n, i))
  }

  function FromLe(s: seq<Byte>): nat {
    if s == [] then 0 else s[0] + 256 * FromLe(s[1..])
  }

  function Pow256(k: nat): nat {
    if k == 0 then 1 else 256 * Pow256(k - 1)
  }

  lemma {:induction false} LeRoundTrip(n: nat, k: nat)
    requires n < Pow256(k)
    ensures FromLe(Le(n, k)) == n
    decreases k
  {
    if k > 0 {
      LeRoundTrip(n / 256, k - 1);
      assert Le(n, k)[1..] == Le(n / 256, k - 1);
    }
  }

  lemma Le2(n: nat)
    requires n < 0x1_0000
    ensures FromLe(Le(n, 2)) == n
  {
    assert Pow256(2) == 256 * Pow256(1) && Pow256(1) == 256 * Pow256(0);
    LeRoundTrip(n, 2);
  }

  lemma Le4(n: nat)
    requires n < LIMIT
    ensures FromLe(Le(n, 4)) == n
  {
    assert Pow256(4) == 256 * Pow256(3) && Pow256(3) == 256 * Pow256(2);
    assert Pow256(2) == 256 * Pow256(1) && Pow256(1) == 256 * Pow256(0);
    LeRoundTrip(n, 4);
  }

  lemma {:induction false} FromLeBound(s: seq<Byte>)
    ensures FromLe(s) < Pow256(|s|)
  {
    if s != [] {
      FromLeBound(s[1..]);
    }
  }

  lemma FromLe4Bound(s: seq<Byte>)
    requires |s| == 4
    ensures FromLe(s) < LIMIT
  {
    assert Pow256(4) == 256 * Pow256(3) && Pow256(3) == 256 * Pow256(2);
    assert Pow256(2) == 256 * Pow256(1) && Pow256(1) == 256 * Pow256(0);
    FromLeBound(s);
  }

  // ---------------------------------------------------------------- encoding

  /** struct sparse_chunk_header. */
  function ChunkHeader(kind: nat, blocks: nat, size: nat): (s: seq<Byte>)
    ensures |s| == CHUNK_HEADER
  {
    Le(kind, 2) + Le(0, 2) + Le(blocks, 4) + Le(size, 4)
  }

  function KindOf(c: Chunk): nat {
    match c
    case Raw(_, _) => SPARSE_RAW
    case Fill(_, _) => SPARSE_FILL
    case DontCare(_) => SPARSE_DONT_CARE
    case Check(_) => SPARSE_CRC32
  }

  function BlocksOf(c: Chunk): nat {
    match c
    case Raw(_, n) => n
    case Fill(_, n) => n
    case DontCare(n) => n
    case Check(_) => 0
  }

  function Payload(c: Chunk): seq<Byte> {
    match c
    case Raw(d, _) => d
    case Fill(w, _) => w
    case DontCare(_) => []
    case Check(w) => w
  }

  function Encode(c: Chunk): (s: seq<Byte>)
    ensures |s| == CHUNK_HEADER + |Payload(c)|
  {
    ChunkHeader(KindOf(c), BlocksOf(c), CHUNK_HEADER + |Payload(c)|) + Payload(c)
  }

  function EncodeAll(cs: seq<Chunk>): seq<Byte> {
    if cs == [] then [] else EncodeAll(cs[..|cs| - 1]) + Encode(cs[|cs| - 1])
  }

  /** struct sparse_header; the crc32 field stays 0. */
  function FileHeader(blockSize: nat, outputBlocks: nat, inputChunks: nat): (s: seq<Byte>)
    ensures |s| == HEADER
  {
    Le(MAGIC, 4) + Le(1, 2) + Le(0, 2) + Le(HEADER, 2) + Le(CHUNK_HEADER, 2) +
    Le(blockSize, 4) + Le(outputBlocks, 4) + Le(inputChunks, 4) + Le(0, 4)
  }

  // ---------------------------------------------------------------- decoding

  /** A chunk whose payload has the length its kind demands. */
  predicate WellFormed(c: Chunk, blockSize: nat) {
    match c
    case Raw(data, n) => |data| == n * blockSize
    case Fill(word, _) => |word| == 4
    case DontCare(_) => true
    case Check(crc) => |crc| == 4
  }

  predicate AllWellFormed(cs: seq<Chunk>, blockSize: nat) {
    forall i :: 0 <= i < |cs| ==> WellFormed(cs[i], blockSize)
  }

  /** A well-formed chunk whose header fields fit. */
  predicate Encodable(c: Chunk, blockSize: nat) {
    WellFormed(c, blockSize) && BlocksOf(c) < LIMIT && CHUNK_HEADER + |Payload(c)| < LIMIT
  }

  /** The chunk of a kind; the payload must have the length the kind demands. */
  function ChunkOf(kind: nat, blocks: nat, body: seq<Byte>, blockSize: nat): Option<Chunk> {
    if kind == 0xCAC1 && |body| == blocks * blockSize then Some(Raw(body, blocks))
    else if kind == 0xCAC2 && |body| == 4 then Some(Fill(body, blocks))
    else if kind == 0xCAC3 && body == [] then Some(DontCare(blocks))
    else if kind == 0xCAC4 && |body| == 4 && blocks == 0 then Some(Check(body))
    else None
  }

  /** One chunk from the front of s, as a reader of the format takes it. */
  function DecodeOne(s: seq<Byte>, blockSize: nat): Option<(Chunk, seq<Byte>)> {
    if |s| < CHUNK_HEADER then None
    else
      var size := FromLe(s[8..12]);
      if size < CHUNK_HEADER || |s| < size then None
      else
        var c := ChunkOf(FromLe(s[..2]), FromLe(s[4..8]), s[CHUNK_HEADER..size], blockSize);
        if c.None? then None else Some((c.value, s[size..]))
  }

  /** n chunks and nothing behind them. */
  function Decode(s: seq<Byte>, n: nat, blockSize: nat): Option<seq<Chunk>> {
    if n == 0 then (if s == [] then Some([]) else None)
    else
      var c := DecodeOne(s, blockSize);
      if c.None? then None
      else
        var rest := Decode(c.value.1, n - 1, blockSize);
        if rest.None? then None else Some([c.value.0] + rest.value)
  }

  /** What a reader takes from the first 28 bytes of a file. */
  datatype Header = Header(magic: nat, major: nat, minor: nat, size: nat, chunkSize: nat,
                           blockSize: nat, blocks: nat, chunks: nat, crc: nat)

  function ParseHeader(s: seq<Byte>): Header
    requires |s| >= 28
  {
    Header(FromLe(s[0..4]), FromLe(s[4..6]), FromLe(s[6..8]), FromLe(s[8..10]), FromLe(s[10..12]),
           FromLe(s[12..16]), FromLe(s[16..20]), FromLe(s[20..24]), FromLe(s[24..28]))
  }

  /** A reader of whole files: the header says how many chunks there are, and how long a block is. */
  function ReadFile(s: seq<Byte>): Option<seq<Chunk>> {
    if |s| < 28 then None
    else
      var h := ParseHeader(s);
      if h.magic != 0xed26ff3a || h.major != 1 || h.size != 28 || h.chunkSize != 12 then None
      else Decode(s[28..], h.chunks, h.blockSize)
  }

  /** The header as it is written is the header as it is read. */
  lemma HeaderFields(blockSize: nat, blocks: nat, chunks: nat, tail: seq<Byte>)
    requires blockSize < LIMIT && blocks < LIMIT && chunks < LIMIT
    ensures ParseHeader(FileHeader(blockSize, blocks, chunks) + tail)
         == Header(0xed26ff3a, 1, 0, 28, 12, blockSize, blocks, chunks, 0)
  {
    var s := FileHeader(blockSize, blocks, chunks) + tail;
    assert s[0..4] == Le(MAGIC, 4) && s[4..6] == Le(1, 2) && s[6..8] == Le(0, 2);
    assert s[8..10] == Le(HEADER, 2) && s[10..12] == Le(CHUNK_HEADER, 2) && s[12..16] == Le(blockSize, 4);
    assert s[16..20] == Le(blocks, 4) && s[20..24] == Le(chunks, 4) && s[24..28] == Le(0, 4);
    Le2(1);
    Le2(0);
    Le2(HEADER);
    Le2(CHUNK_HEADER);
    Le4(MAGIC);
    Le4(blockSize);
    Le4(blocks);
    Le4(chunks);
    Le4(0);
  }

  lemma ChunkHeaderFields(kind: nat, blocks: nat, size: nat, tail: seq<Byte>)
    requires kind < 0x1_0000 && blocks < LIMIT && size < LIMIT
    ensures var s := ChunkHeader(kind, blocks, size) + tail;
            FromLe(s[..2]) == kind && FromLe(s[4..8]) == blocks && FromLe(s[8..12]) == size
  {
    var s := ChunkHeader(kind, blocks, size) + tail;
    assert s[..2] == Le(kind, 2) && s[4..8] == Le(blocks, 4) && s[8..12] == Le(size, 4);
    Le2(kind);
    Le4(blocks);
    Le4(size);
  }

  lemma DecodeEncode(c: Chunk, tail: seq<Byte>, blockSize: nat)
    requires Encodable(c, blockSize)
    ensures DecodeOne(Encode(c) + tail, blockSize) == Some((c, tail))
  {
    var p := Payload(c);
    assert ChunkOf(KindOf(c), BlocksOf(c), p, blockSize) == Some(c);
    var size := CHUNK_HEADER + |p|;
    var h := ChunkHeader(KindOf(c), BlocksOf(c), size);
    ChunkHeaderFields(KindOf(c), BlocksOf(c), size, p + tail);
    Assoc(h, p, tail);
    Pieces(h, p, tail);
  }

  /** The size field of a raw chunk that is too long wraps around, and no reader takes the chunk. */
  lemma WrappedRaw(c: Chunk, tail: seq<Byte>, blockSize: nat)
    requires c.Raw? && WellFormed(c, blockSize) && c.rawBlocks < LIMIT && CHUNK_HEADER + |c.data| >= LIMIT
    ensures DecodeOne(Encode(c) + tail, blockSize) == None
  {
    var s := Encode(c) + tail;
    var h := ChunkHeader(SPARSE_RAW, c.rawBlocks, CHUNK_HEADER + |c.data|);
    assert s[..2] == h[..2] == Le(SPARSE_RAW, 2) && s[4..8] == h[4..8] == Le(c.rawBlocks, 4);
    Le2(SPARSE_RAW);
    Le4(c.rawBlocks);
    FromLe4Bound(s[8..12]);
  }

  lemma Pieces(h: seq<Byte>, p: seq<Byte>, tail: seq<Byte>)
    ensures var s := h + (p + tail);
            s[|h|..|h| + |p|] == p && s[|h| + |p|..] == tail
  {
  }

  lemma EncodeLast(cs: seq<Chunk>, c: Chunk)
    ensures EncodeAll(cs + [c]) == EncodeAll(cs) + Encode(c)
  {
    assert (cs + [c])[..|cs|] == cs;
  }

  lemma {:induction false} EncodeConcat(a: seq<Chunk>, b: seq<Chunk>)
    ensures EncodeAll(a + b) == EncodeAll(a) + EncodeAll(b)
  {
    if b == [] {
      assert a + b == a;
    } else {
      var front, last := b[..|b| - 1], b[|b| - 1];
      EncodeConcat(a, front);
      assert a + b == (a + front) + [last];
      EncodeLast(a + front, last);
      Assoc(EncodeAll(a), EncodeAll(front), Encode(last));
    }
  }

  lemma EncodeFront(c: Chunk, cs: seq<Chunk>)
    ensures EncodeAll([c] + cs) == Encode(c) + EncodeAll(cs)
  {
    EncodeConcat([c], cs);
    EncodeLast([], c);
    assert [] + [c] == [c];
    assert [] + Encode(c) == Encode(c);
  }

  /** Reading back what was written gives the same chunks. */
  lemma {:induction false} DecodeEncodeAll(cs: seq<Chunk>, blockSize: nat)
    requires forall i :: 0 <= i < |cs| ==> Encodable(cs[i], blockSize)
    ensures Decode(EncodeAll(cs), |cs|, blockSize) == Some(cs)
  {
    if cs != [] {
      var rest := cs[1..];
      assert cs == [cs[0]] + rest;
      EncodeFront(cs[0], rest);
      DecodeEncode(cs[0], EncodeAll(rest), blockSize);
      assert forall i :: 0 <= i < |rest| ==> rest[i] == cs[i + 1];
      DecodeEncodeAll(rest, blockSize);
    }
  }

  // ---------------------------------------------------------------- meaning

  function FillBlock(w: seq<Byte>, blockSize: nat): (s: seq<Byte>)
    requires |w| == 4
    ensures |s| == blockSize
  {
    seq(blockSize, i requires 0 <= i => w[i % 4])
  }

  function Repeat(block: seq<Byte>, n: nat): seq<Byte> {
    if n == 0 then [] else Repeat(block, n - 1) + block
  }

  lemma {:induction false} RepeatLength(block: seq<Byte>, n: nat)
    ensures |Repeat(block, n)| == n * |block|
  {
    if n > 0 {
      RepeatLength(block, n - 1);
    }
  }

  function ExpandOne(c: Chunk, blockSize: nat): seq<Byte> {
    match c
    case Raw(d, _) => d
    case Fill(w, n) => if |w| == 4 then Repeat(FillBlock(w, blockSize), n) else []
    case DontCare(n) => Repeat(Rep(0, blockSize), n)
    case Check(_) => []
  }

  /** The image the chunks stand for; areas nobody cares about are zero. */
  function Expand(cs: seq<Chunk>, blockSize: nat): seq<Byte> {
    if cs == [] then [] else Expand(cs[..|cs| - 1], blockSize) + ExpandOne(cs[|cs| - 1], blockSize)
  }

  function TotalBlocks(cs: seq<Chunk>): nat {
    if cs == [] then 0 else TotalBlocks(cs[..|cs| - 1]) + BlocksOf(cs[|cs| - 1])
  }

  lemma ExpandLast(cs: seq<Chunk>, c: Chunk, blockSize: nat)
    ensures Expand(cs + [c], blockSize) == Expand(cs, blockSize) + ExpandOne(c, blockSize)
  {
    assert (cs + [c])[..|cs|] == cs;
  }

  lemma {:induction false} ExpandConcat(a: seq<Chunk>, b: seq<Chunk>, blockSize: nat)
    ensures Expand(a + b, blockSize) == Expand(a, blockSize) + Expand(b, blockSize)
  {
    if b == [] {
      assert a + b == a;
    } else {
      var front, last := b[..|b| - 1], b[|b| - 1];
      ExpandConcat(a, front, blockSize);
      assert a + b == (a + front) + [last];
      ExpandLast(a + front, last, blockSize);
      Assoc(Expand(a, blockSize), Expand(front, blockSize), ExpandOne(last, blockSize));
    }
  }

  lemma ExpandOneLength(c: Chunk, blockSize: nat)
    requires WellFormed(c, blockSize)
    ensures |ExpandOne(c, blockSize)| == BlocksOf(c) * blockSize
  {
    match c
    case Fill(w, n) => RepeatLength(FillBlock(w, blockSize), n);
    case DontCare(n) => RepeatLength(Rep(0, blockSize), n);
    case Raw(_, _) =>
    case Check(_) =>
  }

  lemma Distribute(a: nat, b: nat, n: nat)
    ensures (a + b) * n == a * n + b * n
  {
  }

  /** The image has as many blocks as the chunks together. */
  lemma {:induction false} ExpandLength(cs: seq<Chunk>, blockSize: nat)
    requires AllWellFormed(cs, blockSize)
    ensures |Expand(cs, blockSize)| == TotalBlocks(cs) * blockSize
  {
    if cs != [] {
      var front, c := cs[..|cs| - 1], cs[|cs| - 1];
      ExpandLength(front, blockSize);
      ExpandOneLength(c, blockSize);
      LengthMore(TotalBlocks(front), BlocksOf(c), blockSize, Expand(front, blockSize), ExpandOne(c, blockSize));
    }
  }

  lemma LengthMore(a: nat, b: nat, n: nat, s: seq<Byte>, t: seq<Byte>)
    requires |s| == a * n && |t| == b * n
    ensures |s + t| == (a + b) * n
  {
    Distribute(a, b, n);
  }

  // ---------------------------------------------------------------- what the chunks are used for

  /** How a block is stored: as it is, as a repeated word, or not at all. */
  datatype Use = Literal | Repeated | Unused

  function UseOf(c: Chunk): Use {
    match c
    case Raw(_, _) => Literal
    case Fill(_, _) => Repeated
    case DontCare(_) => Unused
    case Check(_) => Unused
  }

  /** How each block of the image is stored. */
  function UsesOf(cs: seq<Chunk>): seq<Use> {
    if cs == [] then []
    else UsesOf(cs[..|cs| - 1]) + Uses(UseOf(cs[|cs| - 1]), BlocksOf(cs[|cs| - 1]))
  }

  function Uses(u: Use, n: nat): seq<Use> {
    seq(n, _ => u)
  }

  /** Two chunks that one chunk cannot replace. */
  predicate Differ(a: Chunk, b: Chunk) {
    && !(a.Raw? && b.Raw?) && !(a.DontCare? && b.DontCare?)
    && !(a.Fill? && b.Fill? && a.word == b.word)
  }

  predicate DiffersLast(front: seq<Chunk>, c: Chunk) {
    front == [] || Differ(front[|front| - 1], c)
  }

  /** No two neighbours could be one chunk. */
  predicate Distinct(cs: seq<Chunk>) {
    forall i :: 0 <= i < |cs| - 1 ==> Differ(cs[i], cs[i + 1])
  }

  lemma UsesLast(front: seq<Chunk>, c: Chunk)
    ensures UsesOf(front + [c]) == UsesOf(front) + Uses(UseOf(c), BlocksOf(c))
  {
    assert (front + [c])[..|front|] == front;
  }

  lemma {:induction false} UsesConcat(a: seq<Chunk>, b: seq<Chunk>)
    ensures UsesOf(a + b) == UsesOf(a) + UsesOf(b)
  {
    if b == [] {
      assert a + b == a;
    } else {
      var front, last := b[..|b| - 1], b[|b| - 1];
      UsesConcat(a, front);
      assert a + b == (a + front) + [last];
      UsesLast(a + front, last);
      Assoc(UsesOf(a), UsesOf(front), Uses(UseOf(last), BlocksOf(last)));
    }
  }

  lemma DistinctMore(front: seq<Chunk>, c: Chunk)
    requires Distinct(front) && DiffersLast(front, c)
    ensures Distinct(front + [c])
  {
    var cs := front + [c];
    forall i | 0 <= i < |cs| - 1
      ensures Differ(cs[i], cs[i + 1])
    {
      assert i < |front| - 1 ==> Differ(front[i], front[i + 1]);
    }
  }

  /** The chunks store the blocks in these ways, whatever chunks follow, and no two neighbours could be one. */
  ghost predicate Tracks(cs: seq<Chunk>, uses: seq<Use>) {
    forall rest: seq<Chunk> {:trigger uses + UsesOf(rest)} ::
      UsesOf(cs + rest) == uses + UsesOf(rest) && Distinct(cs)
  }

  lemma TracksIntro(cs: seq<Chunk>, uses: seq<Use>)
    requires UsesOf(cs) == uses && Distinct(cs)
    ensures Tracks(cs, uses)
  {
    forall rest: seq<Chunk>
      ensures UsesOf(cs + rest) == uses + UsesOf(rest)
    {
      UsesConcat(cs, rest);
    }
  }

  lemma TracksElim(cs: seq<Chunk>, uses: seq<Use>)
    requires Tracks(cs, uses)
    ensures UsesOf(cs) == uses && Distinct(cs)
  {
    assert cs + [] == cs;
    assert uses + UsesOf([]) == uses;
  }

  /** A chunk behind the others. */
  lemma TracksMore(front: seq<Chunk>, c: Chunk, uses: seq<Use>)
    requires Tracks(front, uses) && DiffersLast(front, c)
    ensures Tracks(front + [c], uses + Uses(UseOf(c), BlocksOf(c)))
  {
    TracksElim(front, uses);
    UsesLast(front, c);
    DistinctMore(front, c);
    TracksIntro(front + [c], uses + Uses(UseOf(c), BlocksOf(c)));
  }

  lemma TracksNew(front: seq<Chunk>, c: Chunk, uses: seq<Use>)
    requires Tracks(front, uses) && DiffersLast(front, c) && BlocksOf(c) == 0
    ensures Tracks(front + [c], uses)
  {
    TracksMore(front, c, uses);
    assert uses + Uses(UseOf(c), 0) == uses;
  }

  /** The last chunk c becomes d, with one more block of the same kind. */
  lemma TracksGrow(front: seq<Chunk>, c: Chunk, d: Chunk, uses: seq<Use>)
    requires Tracks(front + [c], uses) && UseOf(d) == UseOf(c) && BlocksOf(d) == BlocksOf(c) + 1
    requires (c.Raw? && d.Raw?) || (c.Fill? && d.Fill? && c.word == d.word)
    ensures Tracks(front + [d], uses + [UseOf(c)])
  {
    TracksElim(front + [c], uses);
    UsesLast(front, c);
    UsesLast(front, d);
    assert Uses(UseOf(c), BlocksOf(d)) == Uses(UseOf(c), BlocksOf(c)) + [UseOf(c)];
    Assoc(UsesOf(front), Uses(UseOf(c), BlocksOf(c)), [UseOf(c)]);
    DistinctGrow(front, c, d);
    TracksIntro(front + [d], uses + [UseOf(c)]);
  }

  lemma DistinctGrow(front: seq<Chunk>, c: Chunk, d: Chunk)
    requires Distinct(front + [c]) && ((c.Raw? && d.Raw?) || (c.Fill? && d.Fill? && c.word == d.word))
    ensures Distinct(front + [d])
  {
    var cs, ds := front + [c], front + [d];
    forall i | 0 <= i < |ds| - 1
      ensures Differ(ds[i], ds[i + 1])
    {
      assert Differ(cs[i], cs[i + 1]);
    }
  }
}
