/**
  The first loop of android_sparse_generate: the extents of the input, rounded to blocks in place
  and merged where they then touch.
 */
module SparseExtents {
  import opened GenimageFile

  // ---------------------------------------------------------------- rounding

  function Down(x: nat, blockSize: nat): (r: nat)
    requires blockSize > 0
    ensures r <= x < r + blockSize
  {
    x / blockSize * blockSize
  }

  function Up(x: nat, blockSize: nat): (r: nat)
    requires blockSize > 0
    ensures x <= r < x + blockSize
  {
    Down(x - 1 + blockSize, blockSize)
  }

  lemma MulMono(p: nat, q: nat, n: nat)
    requires p <= q
    ensures p * n <= q * n
  {
  }

  lemma QuotientUnique(p: nat, r: nat, q: nat, t: nat, n: nat)
    requires p * n + r == q * n + t && r < n && t < n
    ensures p == q
  {
    if p < q {
      MulMono(p + 1, q, n);
    } else if q < p {
      MulMono(q + 1, p, n);
    }
  }

  /** Dividing a number of whole blocks. */
  lemma QuotientOf(q: nat, n: nat)
    requires n > 0
    ensures q * n / n == q && Down(q * n, n) == q * n && Up(q * n, n) == q * n
  {
    var x := q * n;
    QuotientUnique(q, 0, x / n, x % n, n);
    var y := x - 1 + n;
    assert y == q * n + (n - 1);
    QuotientUnique(q, n - 1, y / n, y % n, n);
  }

  lemma DownMono(x: nat, y: nat, n: nat)
    requires n > 0 && x <= y
    ensures Down(x, n) <= Down(y, n)
  {
    if x / n > y / n {
      MulMono(y / n + 1, x / n, n);
    } else {
      MulMono(x / n, y / n, n);
    }
  }

  lemma UpMono(x: nat, y: nat, n: nat)
    requires n > 0 && x <= y
    ensures Up(x, n) <= Up(y, n)
  {
    DownMono(x - 1 + n, y - 1 + n, n);
  }

  /** Rounding down what was rounded up or down changes nothing. */
  lemma DownAgain(x: nat, n: nat)
    requires n > 0
    ensures Down(Down(x, n), n) == Down(x, n) && Down(Up(x, n), n) == Up(x, n)
  {
    QuotientOf(x / n, n);
    QuotientOf((x - 1 + n) / n, n);
  }

  // ---------------------------------------------------------------- what the loop has done

  /** Where extent e ends once rounded, within the file. */
  function End(e: Extent, blockSize: nat, size: nat): nat
    requires blockSize > 0
  {
    Min(Up(e.end, blockSize), size)
  }

  /** Position x lies in a block that one of the extents touches. */
  predicate Touched(es: seq<Extent>, blockSize: nat, x: nat)
    requires blockSize > 0
  {
    exists i :: 0 <= i < |es| && Down(es[i].start, blockSize) <= x < Up(es[i].end, blockSize)
  }

  ghost predicate Sorted(es: seq<Extent>, size: nat) {
    && (forall i :: 0 <= i < |es| ==> es[i].start <= es[i].end && es[i].start <= size)
    && (forall i, j :: 0 <= i < j < |es| ==> es[i].end <= es[j].start)
  }

  /** An extent of whole blocks, but for the end of the file. */
  predicate Whole(e: Extent, blockSize: nat, size: nat)
    requires blockSize > 0
  {
    && Down(e.start, blockSize) == e.start && e.start <= e.end <= size
    && (Down(e.end, blockSize) == e.end || e.end == size)
  }

  /** A removed extent, or one that starts behind the end of every earlier one. */
  predicate Follows(e: Extent, f: Extent) {
    f == Extent(0, 0) || e.end < f.start
  }

  /** Whole blocks, in order, with at least one block between any two that are left. */
  ghost predicate Spaced(es: seq<Extent>, blockSize: nat, size: nat)
    requires blockSize > 0
  {
    && (forall i :: 0 <= i < |es| ==> Whole(es[i], blockSize, size))
    && (forall i, j :: 0 <= i < j < |es| ==> Follows(es[i], es[j]))
  }

  /** None of the extents starts or ends behind e. */
  ghost predicate Below(es: seq<Extent>, e: Extent) {
    forall i :: 0 <= i < |es| ==> es[i].start <= e.start && es[i].end <= e.end
  }

  /** bs is what the loop makes of the original extents es. */
  ghost predicate AlignedFrom(es: seq<Extent>, bs: seq<Extent>, blockSize: nat, size: nat)
    requires blockSize > 0
  {
    && |bs| == |es| && Spaced(bs, blockSize, size)
    && (forall x :: 0 <= x < size ==> (Covered(bs, x) <==> Touched(es, blockSize, x)))
    && (es != [] ==> Below(bs, Rounded(es[|es| - 1], blockSize, size)))
    && (es != [] ==> LastEnds(bs, End(es[|es| - 1], blockSize, size)))
  }

  /** Extent j is the last one that is left (the first one always is). */
  ghost predicate LastLeft(bs: seq<Extent>, j: nat) {
    j < |bs| && (forall i :: j < i < |bs| ==> bs[i] == Extent(0, 0)) && (j > 0 ==> bs[j].end != 0)
  }

  ghost predicate LastEnds(bs: seq<Extent>, end: nat) {
    forall j: nat :: LastLeft(bs, j) ==> bs[j].end == end
  }

  /** The new extent e of the loop, rounded. */
  function Rounded(e: Extent, blockSize: nat, size: nat): Extent
    requires blockSize > 0
  {
    Extent(Down(e.start, blockSize), End(e, blockSize, size))
  }

  lemma RoundedWhole(e: Extent, blockSize: nat, size: nat)
    requires blockSize > 0 && e.start <= e.end && e.start <= size
    ensures Whole(Rounded(e, blockSize, size), blockSize, size)
  {
    DownAgain(e.start, blockSize);
    DownAgain(e.end, blockSize);
  }

  /** The ends are in order, so the new one is beyond every end so far. */
  lemma EndGrows(es: seq<Extent>, e: Extent, bs: seq<Extent>, blockSize: nat, size: nat)
    requires blockSize > 0 && Sorted(es + [e], size) && AlignedFrom(es, bs, blockSize, size)
    ensures Below(bs, Rounded(e, blockSize, size))
  {
    if es != [] {
      var last := es[|es| - 1];
      assert (es + [e])[|es| - 1] == last && (es + [e])[|es|] == e;
      UpMono(last.end, e.end, blockSize);
      DownMono(last.start, e.start, blockSize);
    }
  }

  /** The blocks touched by one more extent. */
  lemma TouchedMore(es: seq<Extent>, e: Extent, blockSize: nat, size: nat, x: nat)
    requires blockSize > 0 && x < size
    ensures Touched(es + [e], blockSize, x) <==>
              (Touched(es, blockSize, x) || Rounded(e, blockSize, size).start <= x < Rounded(e, blockSize, size).end)
  {
    var all := es + [e];
    if Touched(es, blockSize, x) {
      var i :| 0 <= i < |es| && Down(es[i].start, blockSize) <= x < Up(es[i].end, blockSize);
      assert all[i] == es[i];
    }
    assert all[|es|] == e;
  }

  /** The new extent is kept. */
  lemma Kept(es: seq<Extent>, e: Extent, bs: seq<Extent>, blockSize: nat, size: nat)
    requires blockSize > 0 && Sorted(es + [e], size) && AlignedFrom(es, bs, blockSize, size)
    requires forall i :: 0 <= i < |bs| ==> bs[i].end < Rounded(e, blockSize, size).start
    ensures AlignedFrom(es + [e], bs + [Rounded(e, blockSize, size)], blockSize, size)
  {
    var r := Rounded(e, blockSize, size);
    var made := bs + [r];
    assert (es + [e])[|es|] == e;
    RoundedWhole(e, blockSize, size);
    EndGrows(es, e, bs, blockSize, size);
    forall x | 0 <= x < size
      ensures Covered(made, x) <==> Touched(es + [e], blockSize, x)
    {
      TouchedMore(es, e, blockSize, size, x);
      CoveredMore(bs, r, x);
    }
    forall j: nat | LastLeft(made, j)
      ensures made[j] == r
    {
      KeptLast(bs, r, j);
    }
  }

  lemma KeptLast(bs: seq<Extent>, r: Extent, j: nat)
    requires r.start <= r.end && (forall i :: 0 <= i < |bs| ==> bs[i].end < r.start) && LastLeft(bs + [r], j)
    ensures j == |bs|
  {
    assert (bs + [r])[|bs|] == r;
  }

  lemma CoveredMore(bs: seq<Extent>, r: Extent, x: nat)
    ensures Covered(bs + [r], x) <==> (Covered(bs, x) || r.start <= x < r.end)
  {
    var all := bs + [r];
    if Covered(bs, x) {
      var i :| 0 <= i < |bs| && bs[i].start <= x < bs[i].end;
      assert all[i] == bs[i];
    }
    assert all[|bs|] == r;
  }

  lemma SpacedMerge(bs: seq<Extent>, j: nat, end: nat, blockSize: nat, size: nat)
    requires blockSize > 0 && Spaced(bs, blockSize, size) && LastLeft(bs, j) && bs[j].end <= end <= size
    requires Down(end, blockSize) == end || end == size
    ensures Spaced(bs[j := Extent(bs[j].start, end)] + [Extent(0, 0)], blockSize, size)
  {
    var made := bs[j := Extent(bs[j].start, end)] + [Extent(0, 0)];
    DownAgain(0, blockSize);
    assert Down(0, blockSize) == 0;
    forall i, k | 0 <= i < k < |made|
      ensures Follows(made[i], made[k])
    {
      if k == j {
        assert Follows(bs[i], bs[j]);
      } else if k < |bs| {
        assert Follows(bs[i], bs[k]);
      }
    }
  }

  /** The new extent is merged into extent j, behind which there are only removed ones. */
  lemma Merged(es: seq<Extent>, e: Extent, bs: seq<Extent>, j: nat, blockSize: nat, size: nat)
    requires blockSize > 0 && Sorted(es + [e], size) && AlignedFrom(es, bs, blockSize, size)
    requires LastLeft(bs, j) && Rounded(e, blockSize, size).start <= bs[j].end
    ensures var grown := Extent(bs[j].start, End(e, blockSize, size));
            AlignedFrom(es + [e], bs[j := grown] + [Extent(0, 0)], blockSize, size)
  {
    var r := Rounded(e, blockSize, size);
    var grown := Extent(bs[j].start, r.end);
    var gone := Extent(0, 0);
    var made := bs[j := grown] + [gone];
    assert (es + [e])[|es|] == e;
    RoundedWhole(e, blockSize, size);
    EndGrows(es, e, bs, blockSize, size);
    SpacedMerge(bs, j, r.end, blockSize, size);
    forall x | 0 <= x < size
      ensures Covered(made, x) <==> Touched(es + [e], blockSize, x)
    {
      TouchedMore(es, e, blockSize, size, x);
      CoveredMore(bs[j := grown], gone, x);
      CoveredGrown(bs, j, r, x);
    }
    forall k: nat | LastLeft(made, k)
      ensures made[k] == grown
    {
      MergedLast(bs, j, grown, k);
    }
  }

  lemma MergedLast(bs: seq<Extent>, j: nat, grown: Extent, k: nat)
    requires LastLeft(bs, j) && bs[j].end <= grown.end && LastLeft(bs[j := grown] + [Extent(0, 0)], k)
    ensures k == j
  {
    assert (bs[j := grown] + [Extent(0, 0)])[j] == grown;
  }

  /** Growing extent j up to the end of r, which starts inside it, covers r as well. */
  lemma CoveredGrown(bs: seq<Extent>, j: nat, r: Extent, x: nat)
    requires j < |bs| && bs[j].start <= r.start <= bs[j].end <= r.end
    ensures Covered(bs[j := Extent(bs[j].start, r.end)], x) <==> (Covered(bs, x) || r.start <= x < r.end)
  {
    var made := bs[j := Extent(bs[j].start, r.end)];
    if Covered(bs, x) {
      var i :| 0 <= i < |bs| && bs[i].start <= x < bs[i].end;
      assert made[i].start <= x < made[i].end;
    }
    if r.start <= x < r.end {
      assert made[j].start <= x < made[j].end;
    }
    if Covered(made, x) {
      var i :| 0 <= i < |made| && made[i].start <= x < made[i].end;
      assert i != j ==> bs[i] == made[i];
    }
  }

  // ---------------------------------------------------------------- the loop

  /** The largest chunk the format can describe. */
  const MAX: nat := 0xFFFF_FFFF - 12

  /** The inner loop: the last extent before n that was not removed, or the first. */
  method FindLast(a: array<Extent>, n: nat) returns (j: int)
    requires n <= a.Length && forall i :: 0 <= i < n ==> a[i].end != 0 || a[i] == Extent(0, 0)
    ensures -1 <= j < n && (j == -1 <==> n == 0)
    ensures j >= 0 ==> LastLeft(a[..n], j)
  {
    j := n - 1;
    while j > 0
      invariant -1 <= j < n && (j == -1 <==> n == 0)
      invariant forall i :: j < i < n ==> a[i] == Extent(0, 0)
    {
      if a[j].end != 0 {
        break;
      }
      j := j - 1;
    }
  }

  /** Extent n, once rounded, does not touch the one before it, so it is not merged. */
  predicate Starts(es: seq<Extent>, n: nat, blockSize: nat, size: nat)
    requires blockSize > 0 && n < |es|
  {
    n == 0 || End(es[n - 1], blockSize, size) < Down(es[n].start, blockSize)
  }

  /** What the size test of the loop looks at: only extents that are not merged. */
  predicate SizeOk(es: seq<Extent>, n: nat, blockSize: nat, size: nat)
    requires blockSize > 0 && n < |es|
  {
    Starts(es, n, blockSize, size) ==> End(es[n], blockSize, size) - Down(es[n].start, blockSize) <= MAX
  }

  /**
    The blocks covered afterwards are exactly the blocks the extents touched; what is left is
    whole blocks, in order and apart.  The loop refuses an extent exactly if it is too large by
    itself and not merged; how large extents get by merging is not looked at.
   */
  method AlignExtents(a: array<Extent>, blockSize: nat, size: nat) returns (ok: bool)
    requires blockSize > 0 && Sorted(a[..], size)
    modifies a
    ensures ok ==> AlignedFrom(old(a[..]), a[..], blockSize, size)
    ensures ok <==> forall n :: 0 <= n < |old(a[..])| ==> SizeOk(old(a[..]), n, blockSize, size)
  {
    ghost var es := a[..];
    var n := 0;
    while n < a.Length
      invariant n <= a.Length && a[n..] == es[n..]
      invariant AlignedFrom(es[..n], a[..n], blockSize, size)
      invariant forall m :: 0 <= m < n ==> SizeOk(es, m, blockSize, size)
    {
      ok := AlignOne(a, n, blockSize, size, es);
      if !ok { return; }
      n := n + 1;
    }
    assert a[..] == a[..n] && es == es[..n];
    ok := true;
  }

  method AlignOne(a: array<Extent>, n: nat, blockSize: nat, size: nat, ghost es: seq<Extent>) returns (ok: bool)
    requires blockSize > 0 && Sorted(es, size) && |es| == a.Length && n < a.Length && a[n..] == es[n..]
    requires AlignedFrom(es[..n], a[..n], blockSize, size)
    modifies a
    ensures a[n + 1..] == es[n + 1..]
    ensures AlignedFrom(es[..n + 1], a[..n + 1], blockSize, size)
    ensures ok <==> SizeOk(es, n, blockSize, size)
  {
    ghost var bs, e := a[..n], es[n];
    assert a[n] == a[n..][0] == e;
    a[n] := Extent(Down(a[n].start, blockSize), a[n].end);
    a[n] := Extent(a[n].start, Min(Up(a[n].end, blockSize), size));
    assert a[..n] == bs && a[n + 1..] == es[n + 1..];
    assert es[..n + 1] == es[..n] + [e];
    assert Sorted(es[..n] + [e], size);
    MergeOne(a, n, blockSize, size, es[..n], e);
    assert a[n + 1..] == es[n + 1..];
    ok := a[n].end - a[n].start <= MAX;
  }

  method MergeOne(a: array<Extent>, n: nat, blockSize: nat, size: nat, ghost es: seq<Extent>, ghost e: Extent)
    requires blockSize > 0 && n < a.Length && Sorted(es + [e], size)
    requires AlignedFrom(es, a[..n], blockSize, size) && a[n] == Rounded(e, blockSize, size)
    modifies a
    ensures forall i :: n < i < a.Length ==> a[i] == old(a[i])
    ensures AlignedFrom(es + [e], a[..n + 1], blockSize, size)
    ensures a[n] == if n == 0 || End(es[n - 1], blockSize, size) < Down(e.start, blockSize)
                    then Rounded(e, blockSize, size) else Extent(0, 0)
  {
    ghost var bs := a[..n];
    LeftOrGone(bs, blockSize, size);
    assert forall i :: 0 <= i < n ==> a[i] == bs[i];
    var j := FindLast(a, n);
    if j >= 0 && a[n].start <= a[j].end {
      Merged(es, e, bs, j, blockSize, size);
      a[j] := Extent(a[j].start, a[n].end);
      a[n] := Extent(0, 0);
      assert a[..n + 1] == bs[j := Extent(bs[j].start, End(e, blockSize, size))] + [Extent(0, 0)];
    } else {
      AllBefore(bs, j, a[n].start, blockSize, size);
      Kept(es, e, bs, blockSize, size);
      assert a[..n + 1] == bs + [Rounded(e, blockSize, size)];
    }
  }

  lemma LeftOrGone(bs: seq<Extent>, blockSize: nat, size: nat)
    requires blockSize > 0 && Spaced(bs, blockSize, size)
    ensures forall i :: 0 <= i < |bs| ==> bs[i].end != 0 || bs[i] == Extent(0, 0)
  {
  }

  lemma AllBefore(bs: seq<Extent>, j: int, start: nat, blockSize: nat, size: nat)
    requires blockSize > 0 && Spaced(bs, blockSize, size) && (j == -1 <==> bs == [])
    requires j >= 0 ==> LastLeft(bs, j) && bs[j].end < start
    requires j >= -1
    ensures forall i :: 0 <= i < |bs| ==> bs[i].end < start
  {
    forall i | 0 <= i < |bs|
      ensures bs[i].end < start
    {
      if i < j {
        assert Follows(bs[i], bs[j]);
      }
    }
  }
}
