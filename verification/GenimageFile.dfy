/**
  Writing into an output file: write_bytes, insert_image and insert_data of genimage's util.c,
  with their shortcuts for zero bytes and for holes of the copied file.
 */
module GenimageFile {
  import opened Common

  type Byte = b: int | 0 <= b < 256

  /** A stretch of allocated bytes of a sparse file. */
  datatype Extent = Extent(start: nat, end: nat)

  function Rep(b: Byte, n: nat): (s: seq<Byte>)
    ensures |s| == n && forall i :: 0 <= i < n ==> s[i] == b
  {
    seq(n, _ => b)
  }

  /** ftruncate: cut, or extend with zeros. */
  function Truncate(f: seq<Byte>, n: nat): (r: seq<Byte>)
    ensures |r| == n
  {
    if n <= |f| then f[..n] else f + Rep(0, n - |f|)
  }

  /** Writing one byte: a gap before it reads as zeros. */
  function PutByte(f: seq<Byte>, x: nat, b: Byte): seq<Byte> {
    if x < |f| then f[x := b] else Truncate(f, x) + [b]
  }

  /** The first n bytes of d written at off. */
  function Write(f: seq<Byte>, off: nat, d: seq<Byte>, n: nat): seq<Byte>
    requires n <= |d|
  {
    if n == 0 then f else PutByte(Write(f, off, d, n - 1), off + n - 1, d[n - 1])
  }

  /** pwrite; writing nothing changes nothing. */
  function Splat(f: seq<Byte>, off: nat, d: seq<Byte>): seq<Byte> {
    Write(f, off, d, |d|)
  }

  /** What a reader finds at position x; nothing reads as zero. */
  function At(f: seq<Byte>, x: nat): Byte {
    if x < |f| then f[x] else 0
  }

  lemma {:induction false} WriteLength(f: seq<Byte>, off: nat, d: seq<Byte>, n: nat)
    requires n <= |d|
    ensures |Write(f, off, d, n)| == if n == 0 || off + n <= |f| then |f| else off + n
  {
    if n > 0 {
      WriteLength(f, off, d, n - 1);
    }
  }

  /** A write changes exactly the bytes it covers. */
  lemma {:induction false} WriteAt(f: seq<Byte>, off: nat, d: seq<Byte>, n: nat, x: nat)
    requires n <= |d|
    ensures At(Write(f, off, d, n), x) == if off <= x < off + n then d[x - off] else At(f, x)
  {
    if n > 0 {
      WriteLength(f, off, d, n - 1);
      WriteAt(f, off, d, n - 1, x);
    }
  }

  /** Two adjacent pieces of d written one after the other. */
  lemma {:induction false} WriteMore(f: seq<Byte>, off: nat, d: seq<Byte>, k: nat, e: seq<Byte>, m: nat)
    requires k + m <= |d| && m <= |e| && forall i :: 0 <= i < m ==> e[i] == d[k + i]
    ensures Write(Write(f, off, d, k), off + k, e, m) == Write(f, off, d, k + m)
  {
    if m > 0 {
      WriteMore(f, off, d, k, e, m - 1);
    }
  }

  /** Only the bytes written matter. */
  lemma {:induction false} WriteSame(f: seq<Byte>, off: nat, d: seq<Byte>, e: seq<Byte>, n: nat)
    requires n <= |d| && n <= |e| && forall i :: 0 <= i < n ==> d[i] == e[i]
    ensures Write(f, off, d, n) == Write(f, off, e, n)
  {
    if n > 0 {
      WriteSame(f, off, d, e, n - 1);
    }
  }

  lemma SameBytes(a: seq<Byte>, b: seq<Byte>)
    requires |a| == |b| && forall x :: 0 <= x < |a| ==> At(a, x) == At(b, x)
    ensures a == b
  {
    forall x | 0 <= x < |a|
      ensures a[x] == b[x]
    {
      assert At(a, x) == At(b, x);
    }
  }

  class OutFile {
    var data: seq<Byte>
    /** A regular file, as opposed to a block device. */
    const regular: bool
    /** fallocate can punch holes into this file. */
    const punch: bool

    constructor (data: seq<Byte>, regular: bool, punch: bool)
      ensures this.data == data && this.regular == regular && this.punch == punch
    {
      this.data := data;
      this.regular := regular;
      this.punch := punch;
    }

    /** fallocate(FALLOC_FL_PUNCH_HOLE | FALLOC_FL_KEEP_SIZE): zero a range inside the file. */
    method PunchHole(offset: nat, size: nat)
      requires offset + size <= |data|
      modifies this`data
      ensures data == old(data)[..offset] + Rep(0, size) + old(data)[offset + size..]
    {
      data := data[..offset] + Rep(0, size) + data[offset + size..];
    }

    /** pwrite of the piece of d that follows the k bytes written so far at off. */
    method PWrite(piece: seq<Byte>, at: nat, ghost f: seq<Byte>, ghost off: nat, ghost d: seq<Byte>, ghost k: nat)
      requires k + |piece| <= |d| && at == off + k && forall i :: 0 <= i < |piece| ==> piece[i] == d[k + i]
      requires data == Write(f, off, d, k)
      modifies this`data
      ensures data == Write(f, off, d, k + |piece|)
    {
      WriteMore(f, off, d, k, piece, |piece|);
      data := Splat(data, at, piece);
    }

    /** The write loop of write_bytes. */
    method FillLoop(todo: nat, offset: nat, byte: Byte)
      modifies this`data
      ensures data == Splat(old(data), offset, Rep(byte, todo))
    {
      var done := 0;
      while done < todo
        invariant done <= todo
        invariant data == Write(old(data), offset, Rep(byte, todo), done)
      {
        var now := Min(todo - done, 4096);
        PWrite(Rep(byte, now), offset + done, old(data), offset, Rep(byte, todo), done);
        done := done + now;
      }
    }

    /** write_bytes: every shortcut has the effect of writing size bytes at offset. */
    method WriteBytes(size: nat, offset: nat, byte: Byte)
      modifies this`data
      ensures data == Splat(old(data), offset, Rep(byte, size))
    {
      if size == 0 {
        return;
      }
      var todo := size;
      if regular && byte == 0 {
        if offset + size > |data| {
          var st := |data|;
          data := Truncate(data, offset + size);
          if offset >= st {
            ZeroWrite(old(data), offset, size, data);
            return;
          }
          todo := st - offset;
        }
        if punch {
          PunchHole(offset, todo);
          ZeroWrite(old(data), offset, size, data);
          return;
        }
      }
      ghost var start := data;
      FillLoop(todo, offset, byte);
      if start != old(data) || todo < size {
        WriteLength(start, offset, Rep(byte, todo), todo);
        forall x: nat
          ensures At(data, x) == if offset <= x < offset + size then 0 else At(old(data), x)
        {
          WriteAt(start, offset, Rep(byte, todo), todo, x);
        }
        ZeroWrite(old(data), offset, size, data);
      }
    }

    /** insert_data. */
    method InsertData(d: seq<Byte>, offset: nat)
      modifies this`data
      ensures data == Splat(old(data), offset, d)
    {
      var done := 0;
      while done < |d|
        invariant 0 <= done <= |d|
        invariant data == Write(old(data), offset, d, done)
      {
        var now := Min(|d| - done, 4096);
        PWrite(d[done..done + now], offset + done, old(data), offset, d, done);
        done := done + now;
      }
    }

    /** extend_file: fails if the file is larger already. */
    method ExtendFile(size: nat) returns (ok: bool)
      modifies this`data
      ensures ok <==> |old(data)| <= size
      ensures data == if ok then Truncate(old(data), size) else old(data)
    {
      if |data| > size {
        return false;
      }
      data := Truncate(data, size);
      ok := true;
    }

    /** insert_image writes the hole before an extent with write_bytes. */
    method FillHole(n: nat, at: nat, ghost f: seq<Byte>, ghost offset: nat, ghost s: seq<Byte>, ghost p: nat)
      requires p + n <= |s| && at == offset + p && forall x :: p <= x < p + n ==> s[x] == 0
      requires data == Write(f, offset, s, p)
      modifies this`data
      ensures data == Write(f, offset, s, p + n)
    {
      WriteMore(f, offset, s, p, Rep(0, n), n);
      WriteBytes(n, at, 0);
    }

    /** The copy loop of insert_image: pieces of at most 4096 bytes, up to the end of the sub-image. */
    method CopyData(s: seq<Byte>, inPos: nat, end: nat, left: nat, offset: nat, ghost f: seq<Byte>)
      returns (n: nat)
      requires inPos <= |s| && data == Write(f, offset, s, inPos)
      modifies this`data
      ensures inPos + n <= |s| && data == Write(f, offset, s, inPos + n)
      ensures n == if inPos >= end then 0 else Min(left, Min(end, |s|) - inPos)
    {
      n := 0;
      while inPos + n < end && n < left
        invariant n <= left && inPos + n <= |s| && (n > 0 ==> inPos + n <= end)
        invariant data == Write(f, offset, s, inPos + n)
        decreases left - n
      {
        var p := inPos + n;
        // pread returns less at the end of the sub-image
        var r := Min(Min(Min(end - p, 4096), left - n), |s| - p);
        if r == 0 {
          break;
        }
        PWrite(s[p..p + r], offset + p, f, offset, s, p);
        assert p + |s[p..p + r]| == inPos + (n + r);
        n := n + r;
      }
    }

    /** The loop of insert_image over the extents of the sub-image. */
    method CopyExtents(s: seq<Byte>, extents: seq<Extent>, size: nat, offset: nat) returns (inPos: nat)
      requires ValidExtents(extents, s, size)
      modifies this`data
      ensures inPos == Min(size, Reach(extents, |s|))
      ensures data == Write(old(data), offset, s, inPos)
    {
      inPos := 0;
      var e := 0;
      while e < |extents| && inPos < size
        invariant 0 <= e <= |extents|
        invariant inPos == Min(size, Reach(extents[..e], |s|))
        invariant data == Write(old(data), offset, s, inPos)
      {
        ReachStep(extents, e, s, size);
        var hole := Min(extents[e].start - inPos, size - inPos);
        FillHole(hole, offset + inPos, old(data), offset, s, inPos);
        inPos := inPos + hole;
        var n := CopyData(s, inPos, extents[e].end, size - inPos, offset, old(data));
        inPos := inPos + n;
        e := e + 1;
      }
      ReachAll(extents, e, s, size);
      assert extents[..|extents|] == extents;
    }

    /** insert_image: whatever the sub-image does not provide is filled with byte. */
    method InsertImage(sub: Option<seq<Byte>>, extents: seq<Extent>, size: nat, offset: nat, byte: Byte)
      requires sub.Some? ==> ValidExtents(extents, sub.value, size)
      modifies this`data
      ensures data == Splat(old(data), offset, Padded(Copied(sub, extents), size, byte))
    {
      var inPos := 0;
      ghost var s, n := [], 0;
      if sub.Some? {
        inPos := CopyExtents(sub.value, extents, size, offset);
        s, n := sub.value, Reach(extents, |sub.value|);
      }
      PadTail(old(data), offset, s, n, size, byte);
      WriteBytes(size - inPos, offset + inPos, byte);
      assert Copied(sub, extents) == s[..n];
    }
  }

  /** What is left after copying the first n bytes of s is filled with byte. */
  lemma PadTail(f: seq<Byte>, offset: nat, s: seq<Byte>, n: nat, size: nat, byte: Byte)
    requires n <= |s|
    ensures var p := Min(size, n);
            Splat(Write(f, offset, s, p), offset + p, Rep(byte, size - p))
              == Splat(f, offset, Padded(s[..n], size, byte))
  {
    var goal, p := Padded(s[..n], size, byte), Min(size, n);
    WriteSame(f, offset, s, goal, p);
    WriteMore(f, offset, goal, p, Rep(byte, size - p), size - p);
  }

  /**
    A file that reads as f with zeros in the range, and is as long as writing them would make
    it, is f with those zeros written.
   */
  lemma ZeroWrite(f: seq<Byte>, offset: nat, size: nat, g: seq<Byte>)
    requires |g| == if size == 0 || offset + size <= |f| then |f| else offset + size
    requires forall x: nat :: At(g, x) == if offset <= x < offset + size then 0 else At(f, x)
    ensures g == Splat(f, offset, Rep(0, size))
  {
    forall x: nat
      ensures At(g, x) == At(Splat(f, offset, Rep(0, size)), x)
    {
      WriteAt(f, offset, Rep(0, size), size, x);
    }
    WriteLength(f, offset, Rep(0, size), size);
    SameBytes(g, Splat(f, offset, Rep(0, size)));
  }

  function Min(a: nat, b: nat): nat { if a < b then a else b }

  /** The part of the sub-image that insert_image reads: up to the end of the last extent. */
  function Copied(sub: Option<seq<Byte>>, extents: seq<Extent>): seq<Byte> {
    if sub.None? then [] else sub.value[..Reach(extents, |sub.value|)]
  }

  /**
    What map_file_extents reports about the first size bytes of a file s: sorted extents that
    start inside the file and leave out only zero bytes; the last may end behind the file.
   */
  ghost predicate ValidExtents(es: seq<Extent>, s: seq<Byte>, size: nat) {
    && (forall i :: 0 <= i < |es| ==> es[i].start <= es[i].end && es[i].start <= |s|)
    && (forall i, j :: 0 <= i < j < |es| ==> es[i].end <= es[j].start)
    && (forall x :: 0 <= x < |s| && x < size && !Covered(es, x) ==> s[x] == 0)
  }

  predicate Covered(es: seq<Extent>, x: nat) {
    exists i :: 0 <= i < |es| && es[i].start <= x < es[i].end
  }

  /** whole_file_exent: one extent of the requested size. */
  lemma WholeFileValid(s: seq<Byte>, size: nat)
    ensures ValidExtents([Extent(0, size)], s, size)
    ensures size >= |s| ==> Reach([Extent(0, size)], |s|) == |s|
  {
    var es := [Extent(0, size)];
    forall x: nat | x < size
      ensures Covered(es, x)
    {
      assert es[0].start <= x < es[0].end;
    }
  }

  /** Where the last extent ends, within the file. */
  function Reach(es: seq<Extent>, n: nat): (r: nat)
    ensures r <= n
  {
    if es == [] then 0
    else if es[|es| - 1].end < n then es[|es| - 1].end else n
  }

  /** The first size bytes of c, with byte making up for what is missing. */
  function Padded(c: seq<Byte>, size: nat, byte: Byte): (r: seq<Byte>)
    ensures |r| == size
  {
    if |c| >= size then c[..size] else c + Rep(byte, size - |c|)
  }

  /** Before the next extent there is a hole of zeros. */
  lemma ReachStep(es: seq<Extent>, e: nat, s: seq<Byte>, size: nat)
    requires ValidExtents(es, s, size) && e < |es|
    ensures Reach(es[..e], |s|) <= es[e].start
    ensures forall x :: Reach(es[..e], |s|) <= x < es[e].start && x < size ==> s[x] == 0
    ensures Reach(es[..e + 1], |s|) == if es[e].end < |s| then es[e].end else |s|
  {
    forall x | Reach(es[..e], |s|) <= x < es[e].start && x < size
      ensures s[x] == 0
    {
      assert forall i :: 0 <= i < e - 1 ==> es[i].end <= es[e - 1].start;
      assert !Covered(es, x);
    }
  }

  lemma {:induction false} ReachAll(es: seq<Extent>, e: nat, s: seq<Byte>, size: nat)
    requires ValidExtents(es, s, size) && e <= |es|
    ensures Reach(es[..e], |s|) <= Reach(es, |s|)
  {
    if 0 < e < |es| {
      assert es[e - 1].end <= es[|es| - 1].start;
    }
  }

  /**
    insert_image leaves the sub-image followed by the pad byte exactly when the pad byte is 0
    or the extents reach the end of what is copied: a trailing hole is filled with the pad byte.
   */
  lemma InsertImageExact(s: seq<Byte>, es: seq<Extent>, size: nat, byte: Byte)
    requires ValidExtents(es, s, size)
    ensures Padded(s[..Reach(es, |s|)], size, byte) == Padded(s, size, byte)
       <==> byte == 0 || Reach(es, |s|) >= (if size < |s| then size else |s|)
  {
    var n := Reach(es, |s|);
    var a, b := Padded(s[..n], size, byte), Padded(s, size, byte);
    forall x | n <= x < |s| && x < size
      ensures s[x] == 0
    {
      assert forall i :: 0 <= i < |es| - 1 ==> es[i].end <= es[|es| - 1].start;
      assert !Covered(es, x);
    }
    if n < size && n < |s| {
      assert a[n] == byte && b[n] == 0;
    }
    if byte == 0 {
      assert forall x :: 0 <= x < size ==> a[x] == b[x];
    }
  }

  /** A file of one byte and a hole, padded with 255: the hole is not copied as the zero it reads as. */
  lemma TrailingHoleLost()
    ensures var s, es := [1, 0], [Extent(0, 1)];
            && ValidExtents(es, s, 2)
            && Padded(Copied(Some(s), es), 2, 255) == [1, 255] && Padded(s, 2, 255) == [1, 0]
  {
    var s: seq<Byte>, es := [1, 0], [Extent(0, 1)];
    assert es[0].start <= 0 < es[0].end;
    assert Covered(es, 0);
    assert Reach(es, 2) == 1;
    assert s[..1] + Rep(255, 1) == [1, 255];
  }
}
