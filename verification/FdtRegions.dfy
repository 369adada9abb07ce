/**
  fdt_find_regions of U-Boot's fdt_region.c: the byte regions of a device tree that are covered by
  a list of nodes.  The structure block is a sequence of tags (section 5.4 of the Devicetree
  Specification); a Begin tag says whether the node's path is on the list, whether the node has a
  name and whether the path buffer has room for it.
 */
module FdtRegions {

  datatype Tag =
    | Begin(listed: bool, named: bool, fits: bool)
    | EndNode
    | Prop(hasName: bool, excluded: bool)
    | Nop
    | End

  /** Tag i occupies the bytes from offs[i] up to offs[i + 1]; there is nothing readable behind the last. */
  datatype Tree = Tree(tags: seq<Tag>, offs: seq<nat>) {
    predicate Valid() {
      |offs| == |tags| + 1 && forall i, j :: 0 <= i < j < |offs| ==> offs[i] < offs[j]
    }
  }

  datatype Region = Region(offset: nat, size: nat) {
    function Limit(): nat { offset + size }
  }

  const MAX_DEPTH: nat := 32

  const NOSPACE: int := 3
  const BADSTRUCTURE: int := 11
  const BADLAYOUT: int := 12

  // ---------------------------------------------------------------- what belongs to the regions

  /** The nodes open before tag i, outermost first, as the positions of their Begin tags. */
  function Open(t: Tree, i: nat): (s: seq<nat>)
    requires i <= |t.tags|
    ensures forall k :: 0 <= k < |s| ==> s[k] < i && t.tags[s[k]].Begin?
  {
    if i == 0 then []
    else
      var s := Open(t, i - 1);
      if t.tags[i - 1].Begin? then s + [i - 1]
      else if t.tags[i - 1].EndNode? && s != [] then s[..|s| - 1]
      else s
  }

  /** The innermost of some open nodes is on the list; or it is a child of one that is. */
  predicate Listed(t: Tree, s: seq<nat>) {
    s != [] && s[|s| - 1] < |t.tags| && t.tags[s[|s| - 1]].Begin? && t.tags[s[|s| - 1]].listed
  }

  predicate Marked(t: Tree, s: seq<nat>) {
    Listed(t, s) || (s != [] && Listed(t, s[..|s| - 1]))
  }

  /**
    A listed node has all its properties; it and its children have their Begin and EndNode tags.
   */
  predicate Included(t: Tree, i: nat)
    requires i < |t.tags|
  {
    match t.tags[i]
    case Begin(_, _, _) => Marked(t, Open(t, i) + [i])
    case EndNode => Marked(t, Open(t, i))
    case Prop(_, excluded) => Listed(t, Open(t, i)) && !excluded
    case Nop => Listed(t, Open(t, i))
    case End => true
  }

  /** The tags whose bytes are covered: the included ones, and an EndNode directly behind one. */
  predicate Covered(t: Tree, i: nat)
    requires i < |t.tags|
  {
    Included(t, i) || (t.tags[i].EndNode? && i > 0 && Included(t, i - 1))
  }

  /** Byte x of the structure block belongs to a covered tag among the first n. */
  ghost predicate CoveredByte(t: Tree, n: nat, x: int)
    requires t.Valid() && n <= |t.tags|
  {
    exists i :: 0 <= i < n && t.offs[i] <= x < t.offs[i + 1] && Covered(t, i)
  }

  /** Byte x of the structure block lies in a region. */
  ghost predicate InRegion(rs: seq<Region>, base: nat, x: int) {
    exists k :: 0 <= k < |rs| && rs[k].offset <= base + x < rs[k].Limit()
  }

  /** Not empty, in increasing order, and never touching. */
  predicate Apart(rs: seq<Region>) {
    && (forall k :: 0 <= k < |rs| ==> rs[k].size > 0)
    && (forall k, l :: 0 <= k < l < |rs| ==> rs[k].Limit() < rs[l].offset)
  }

  /** The regions are exactly the covered bytes of the first n tags. */
  ghost predicate Exact(t: Tree, base: nat, rs: seq<Region>, n: nat)
    requires t.Valid() && n <= |t.tags|
  {
    Apart(rs) && forall x: int :: InRegion(rs, base, x) <==> CoveredByte(t, n, x)
  }

  // ---------------------------------------------------------------- nesting, by counting

  /** Begin tags less EndNode tags from tag a up to tag b. */
  function Balance(t: Tree, a: nat, b: nat): int
    requires a <= b <= |t.tags|
  {
    if a == b then 0
    else Balance(t, a, b - 1) + (if t.tags[b - 1].Begin? then 1 else if t.tags[b - 1].EndNode? then -1 else 0)
  }

  /** From tag a up to tag i, no more nodes end than begin. */
  ghost predicate Nested(t: Tree, a: nat, i: nat)
    requires a <= i <= |t.tags|
  {
    forall j :: a <= j <= i ==> Balance(t, a, j) >= 0
  }

  /** Tag i stands directly inside the node that begins at tag k: all nodes begun since have ended. */
  ghost predicate Inside(t: Tree, k: nat, i: nat) {
    && k < i <= |t.tags| && t.tags[k].Begin?
    && Balance(t, k + 1, i) == 0 && Nested(t, k + 1, i)
  }

  /** An open node has more begun than ended behind it, by the number of nodes inside of it that are open. */
  lemma {:induction false} OpenBalance(t: Tree, i: nat, d: nat)
    requires i <= |t.tags| && d < |Open(t, i)|
    ensures var k := Open(t, i)[d];
            Balance(t, k + 1, i) == |Open(t, i)| - 1 - d && Nested(t, k + 1, i)
  {
    var s := Open(t, i - 1);
    if t.tags[i - 1].Begin? && d == |s| {
      assert Open(t, i)[d] == i - 1;
    } else {
      assert Open(t, i)[d] == s[d];
      OpenBalance(t, i - 1, d);
      var a := s[d] + 1;
      forall j | a <= j <= i
        ensures Balance(t, a, j) >= 0
      {
        assert j < i ==> Balance(t, a, j) >= 0;
      }
    }
  }

  /** As long as no more is ended than begun, a node stays open below the ones begun later. */
  lemma {:induction false} StaysOpen(t: Tree, k: nat, i: nat)
    requires k < i <= |t.tags| && t.tags[k].Begin? && Nested(t, k + 1, i)
    ensures |Open(t, i)| == |Open(t, k)| + 1 + Balance(t, k + 1, i) && Open(t, i)[|Open(t, k)|] == k
  {
    if i == k + 1 {
      assert Open(t, i) == Open(t, k) + [k];
    } else {
      var a := k + 1;
      assert forall j :: a <= j <= i - 1 ==> Balance(t, a, j) >= 0;
      StaysOpen(t, k, i - 1);
      assert Balance(t, a, i) >= 0;
    }
  }

  /** The innermost open node is the one the tag stands directly inside of. */
  lemma InnermostInside(t: Tree, k: nat, i: nat)
    requires i <= |t.tags|
    ensures Inside(t, k, i) <==> Open(t, i) != [] && Open(t, i)[|Open(t, i)| - 1] == k
  {
    if Inside(t, k, i) {
      StaysOpen(t, k, i);
    }
    if Open(t, i) != [] && Open(t, i)[|Open(t, i)| - 1] == k {
      OpenBalance(t, i, |Open(t, i)| - 1);
    }
  }

  /** The tag stands directly inside a node on the list. */
  ghost predicate InListed(t: Tree, i: nat) {
    exists k: nat :: Inside(t, k, i) && t.tags[k].listed
  }

  /** The tag stands directly inside a node on the list, or inside a child of one. */
  ghost predicate NearListed(t: Tree, i: nat) {
    exists k: nat :: Inside(t, k, i) && (t.tags[k].listed || InListed(t, k))
  }

  /** There is at most one such node. */
  lemma OneInside(t: Tree, k: nat, l: nat, i: nat)
    requires i <= |t.tags| && Inside(t, k, i) && Inside(t, l, i)
    ensures k == l
  {
    InnermostInside(t, k, i);
    InnermostInside(t, l, i);
  }

  lemma ListedInside(t: Tree, i: nat)
    requires i <= |t.tags|
    ensures Listed(t, Open(t, i)) <==> InListed(t, i)
  {
    var s := Open(t, i);
    if s != [] {
      InnermostInside(t, s[|s| - 1], i);
    }
    if InListed(t, i) {
      var k: nat :| Inside(t, k, i) && t.tags[k].listed;
      InnermostInside(t, k, i);
    }
  }

  /** Below the innermost open node is what was open before it began. */
  lemma {:induction false} OpenBelow(t: Tree, i: nat)
    requires i <= |t.tags| && Open(t, i) != []
    ensures var s := Open(t, i); s[..|s| - 1] == Open(t, s[|s| - 1])
  {
    var s := Open(t, i);
    OpenBelowAt(t, i, |s| - 1);
  }

  lemma {:induction false} OpenBelowAt(t: Tree, i: nat, d: nat)
    requires i <= |t.tags| && d < |Open(t, i)|
    ensures Open(t, i)[..d] == Open(t, Open(t, i)[d])
  {
    var s, r := Open(t, i - 1), Open(t, i);
    if t.tags[i - 1].Begin? && d == |s| {
      assert r[..d] == s;
    } else {
      OpenBelowAt(t, i - 1, d);
      assert r[..d] == s[..d] && r[d] == s[d];
    }
  }

  lemma MarkedInside(t: Tree, i: nat)
    requires i <= |t.tags|
    ensures Marked(t, Open(t, i)) <==> NearListed(t, i)
  {
    var s := Open(t, i);
    if s == [] {
      forall k: nat
        ensures !Inside(t, k, i)
      {
        InnermostInside(t, k, i);
      }
    } else {
      InnermostMarked(t, i, s[|s| - 1]);
    }
  }

  lemma InnermostMarked(t: Tree, i: nat, k: nat)
    requires i <= |t.tags| && Open(t, i) != [] && k == Open(t, i)[|Open(t, i)| - 1]
    ensures Marked(t, Open(t, i)) <==> NearListed(t, i)
  {
    var s := Open(t, i);
    InnermostInside(t, k, i);
    OpenBelow(t, i);
    ListedInside(t, k);
    assert Marked(t, s) <==> t.tags[k].listed || InListed(t, k);
    if NearListed(t, i) {
      var l: nat :| Inside(t, l, i) && (t.tags[l].listed || InListed(t, l));
      OneInside(t, k, l, i);
    }
  }

  /**
    What is covered, kind by kind: a property that is not excluded, and a NOP, directly inside a node on the
    list; the Begin and EndNode tags of a node on the list and of its children; the End tag; and an EndNode
    directly behind a tag that is covered for one of these reasons.
   */
  ghost predicate ByKind(t: Tree, i: nat)
    requires i < |t.tags|
  {
    match t.tags[i]
    case Begin(listed, _, _) => listed || InListed(t, i)
    case EndNode => NearListed(t, i)
    case Prop(_, excluded) => !excluded && InListed(t, i)
    case Nop => InListed(t, i)
    case End => true
  }

  lemma IncludedByKind(t: Tree, i: nat)
    requires i < |t.tags|
    ensures Included(t, i) <==> ByKind(t, i)
  {
    ListedInside(t, i);
    MarkedInside(t, i);
    if t.tags[i].Begin? {
      var s := Open(t, i) + [i];
      assert s[|s| - 1] == i && s[..|s| - 1] == Open(t, i);
    }
  }

  /** The bytes of the tag are to be covered, for one of these reasons. */
  ghost predicate Needed(t: Tree, i: nat)
    requires i < |t.tags|
  {
    ByKind(t, i) || (t.tags[i].EndNode? && i > 0 && ByKind(t, i - 1))
  }

  lemma CoveredByKind(t: Tree, i: nat)
    requires i < |t.tags|
    ensures Covered(t, i) <==> Needed(t, i)
  {
    IncludedByKind(t, i);
    if i > 0 {
      IncludedByKind(t, i - 1);
    }
  }

  /** Byte x belongs to one of the first n tags, and is to be covered. */
  ghost predicate NeededByte(t: Tree, n: nat, x: int)
    requires t.Valid() && n <= |t.tags|
  {
    exists i :: 0 <= i < n && t.offs[i] <= x < t.offs[i + 1] && Needed(t, i)
  }

  lemma NeededIsCovered(t: Tree, n: nat, x: int)
    requires t.Valid() && n <= |t.tags|
    ensures NeededByte(t, n, x) <==> CoveredByte(t, n, x)
  {
    if CoveredByte(t, n, x) {
      var i :| 0 <= i < n && t.offs[i] <= x < t.offs[i + 1] && Covered(t, i);
      CoveredByKind(t, i);
      assert Needed(t, i);
    }
    if NeededByte(t, n, x) {
      var i :| 0 <= i < n && t.offs[i] <= x < t.offs[i + 1] && Needed(t, i);
      CoveredByKind(t, i);
      assert Covered(t, i);
    }
  }

  // ---------------------------------------------------------------- which trees are accepted

  /** The root node has been closed before tag i. */
  predicate Closed(t: Tree, i: nat)
    requires i <= |t.tags|
  {
    i > 0 && (Closed(t, i - 1) || (t.tags[i - 1].EndNode? && |Open(t, i - 1)| == 1))
  }

  predicate GoodTag(t: Tree, i: nat)
    requires i < |t.tags|
  {
    && (Closed(t, i) ==> t.tags[i].End?)
    && match t.tags[i]
       case Begin(_, named, fits) => |Open(t, i)| < MAX_DEPTH && (Open(t, i) == [] ==> !named) && fits
       case EndNode => Open(t, i) != []
       case Prop(hasName, _) => hasName
       case Nop => true
       case End => true
  }

  /** The first n tags are good, and none of them is the last one. */
  predicate Goes(t: Tree, n: nat)
    requires n <= |t.tags|
  {
    forall i {:trigger GoodTag(t, i)} :: 0 <= i < n ==> GoodTag(t, i) && !t.tags[i].End?
  }

  /** Good tags up to an End tag, which is where the structure block ends. */
  predicate Accepted(t: Tree, size: nat) {
    exists n :: 0 <= n < |t.tags| && Goes(t, n) && t.tags[n].End? && n + 1 < |t.offs| && t.offs[n + 1] == size
  }

  // ---------------------------------------------------------------- bytes and regions, tag by tag

  lemma CoveredMore(t: Tree, n: nat, x: int)
    requires t.Valid() && n < |t.tags|
    ensures CoveredByte(t, n + 1, x) <==> CoveredByte(t, n, x) || (t.offs[n] <= x < t.offs[n + 1] && Covered(t, n))
  {
  }

  lemma InMore(rs: seq<Region>, r: Region, base: nat, x: int)
    ensures InRegion(rs + [r], base, x) <==> InRegion(rs, base, x) || r.offset <= base + x < r.Limit()
  {
    var all := rs + [r];
    if InRegion(rs, base, x) {
      var k :| 0 <= k < |rs| && rs[k].offset <= base + x < rs[k].Limit();
      assert all[k] == rs[k];
    }
    assert all[|rs|] == r;
  }

  /** Byte x lies in a region, or in the one that begins at start (if not -1) and reaches up to here. */
  ghost predicate Shown(rs: seq<Region>, base: nat, start: int, here: int, x: int) {
    InRegion(rs, base, x) || (start != -1 && start <= x < here)
  }

  /** The regions so far are exactly the covered bytes so far. */
  ghost predicate Same(t: Tree, base: nat, rs: seq<Region>, start: int, i: nat)
    requires t.Valid() && i <= |t.tags|
  {
    forall x: int :: Shown(rs, base, start, t.offs[i], x) <==> CoveredByte(t, i, x)
  }

  /** All regions end before the given position, or at it. */
  predicate Below(rs: seq<Region>, limit: int) {
    forall k :: 0 <= k < |rs| ==> rs[k].Limit() <= limit
  }

  /**
    What holds before tag i.  start is -1, or where the region begins that reaches up to tag i; then
    tag i - 1 is included.
   */
  ghost predicate Track(t: Tree, base: nat, rs: seq<Region>, start: int, i: nat)
    requires t.Valid() && i <= |t.tags|
  {
    && Apart(rs) && (forall k :: 0 <= k < |rs| ==> rs[k].offset >= base)
    && (start != -1 <==> i > 0 && Included(t, i - 1))
    && (if start == -1 then Below(rs, base + t.offs[i]) else 0 <= start < t.offs[i] && Below(rs, base + start - 1))
    && Same(t, base, rs, start, i)
  }

  /** An included tag continues the open region, or opens one. */
  lemma TrackIncluded(t: Tree, base: nat, rs: seq<Region>, start: int, i: nat)
    requires t.Valid() && i < |t.tags| && Track(t, base, rs, start, i) && Included(t, i)
    requires start == -1 && rs != [] ==> rs[|rs| - 1].Limit() != base + t.offs[i]
    ensures Track(t, base, rs, if start == -1 then t.offs[i] else start, i + 1)
  {
    var n := i + 1;
    var first := if start == -1 then t.offs[i] else start;
    forall x: int
      ensures Shown(rs, base, first, t.offs[n], x) <==> CoveredByte(t, n, x)
    {
      CoveredMore(t, i, x);
      assert Shown(rs, base, start, t.offs[i], x) <==> CoveredByte(t, i, x);
    }
  }

  /** A region that touches the included tag is taken back and continued. */
  lemma TrackMerged(t: Tree, base: nat, rs: seq<Region>, r: Region, i: nat)
    requires t.Valid() && i < |t.tags| && Track(t, base, rs + [r], -1, i) && Included(t, i)
    requires r.Limit() == base + t.offs[i]
    ensures r.offset >= base && Track(t, base, rs, r.offset - base, i + 1)
  {
    var all := rs + [r];
    assert all[|rs|] == r;
    assert forall k :: 0 <= k < |rs| ==> all[k] == rs[k];
    var n, start := i + 1, r.offset - base;
    forall x: int
      ensures Shown(rs, base, start, t.offs[n], x) <==> CoveredByte(t, n, x)
    {
      CoveredMore(t, i, x);
      InMore(rs, r, base, x);
      assert Shown(all, base, -1, t.offs[i], x) <==> CoveredByte(t, i, x);
    }
  }

  /** Where a region ends that tag i ends: behind the tag if that is an EndNode. */
  function Stop(t: Tree, i: nat): nat
    requires t.Valid() && i < |t.tags|
  {
    if t.tags[i].EndNode? then t.offs[i + 1] else t.offs[i]
  }

  /** A tag that is not included ends the open region. */
  lemma TrackClosed(t: Tree, base: nat, rs: seq<Region>, start: int, i: nat)
    requires t.Valid() && i < |t.tags| && Track(t, base, rs, start, i) && !Included(t, i) && start != -1
    ensures 0 <= start <= Stop(t, i)
    ensures Track(t, base, rs + [Region(base + start, Stop(t, i) - start)], -1, i + 1)
  {
    var r := Region(base + start, Stop(t, i) - start);
    var n, made := i + 1, rs + [r];
    forall x: int
      ensures Shown(made, base, -1, t.offs[n], x) <==> CoveredByte(t, n, x)
    {
      ClosedByte(t, base, rs, start, i, x);
    }
    assert made[|rs|] == r && forall k :: 0 <= k < |rs| ==> made[k] == rs[k];
  }

  lemma ClosedByte(t: Tree, base: nat, rs: seq<Region>, start: int, i: nat, x: int)
    requires t.Valid() && i < |t.tags| && !Included(t, i) && start != -1 && i > 0 && Included(t, i - 1)
    requires 0 <= start < t.offs[i] && (Shown(rs, base, start, t.offs[i], x) <==> CoveredByte(t, i, x))
    ensures var made := rs + [Region(base + start, Stop(t, i) - start)];
            Shown(made, base, -1, t.offs[i + 1], x) <==> CoveredByte(t, i + 1, x)
  {
    CoveredMore(t, i, x);
    InMore(rs, Region(base + start, Stop(t, i) - start), base, x);
  }

  lemma TrackSkipped(t: Tree, base: nat, rs: seq<Region>, i: nat)
    requires t.Valid() && i < |t.tags| && Track(t, base, rs, -1, i) && !Included(t, i)
    ensures Track(t, base, rs, -1, i + 1)
  {
    var n := i + 1;
    forall x: int
      ensures Shown(rs, base, -1, t.offs[n], x) <==> CoveredByte(t, n, x)
    {
      CoveredMore(t, i, x);
      assert Shown(rs, base, -1, t.offs[i], x) <==> CoveredByte(t, i, x);
    }
  }

  /** The last region touches the tag at here. */
  predicate Touches(rs: seq<Region>, base: nat, here: nat) {
    rs != [] && rs[|rs| - 1].Limit() == base + here
  }

  /** An included tag outside of a region takes back a region that it touches, or opens one. */
  lemma TrackOpened(t: Tree, base: nat, rs: seq<Region>, i: nat) returns (more: seq<Region>, begin: int)
    requires t.Valid() && i < |t.tags| && Track(t, base, rs, -1, i) && Included(t, i)
    ensures Track(t, base, more, begin, i + 1) && begin != -1
    ensures if Touches(rs, base, t.offs[i])
            then more == rs[..|rs| - 1] && begin == rs[|rs| - 1].offset - base
            else more == rs && begin == t.offs[i]
  {
    if Touches(rs, base, t.offs[i]) {
      more, begin := rs[..|rs| - 1], rs[|rs| - 1].offset - base;
      assert rs == more + [rs[|rs| - 1]];
      TrackMerged(t, base, more, rs[|rs| - 1], i);
    } else {
      more, begin := rs, t.offs[i];
      TrackIncluded(t, base, rs, -1, i);
    }
  }

  // ---------------------------------------------------------------- there is only one such list

  ghost predicate SameBytes(rs: seq<Region>, qs: seq<Region>) {
    forall x: int :: InRegion(rs, 0, x) <==> InRegion(qs, 0, x)
  }

  /** The first region holds the lowest byte and ends at the first byte that is missing. */
  lemma FirstRegion(rs: seq<Region>)
    requires Apart(rs) && rs != []
    ensures forall x: int :: InRegion(rs, 0, x) ==> rs[0].offset <= x
    ensures forall x: int :: rs[0].offset <= x < rs[0].Limit() ==> InRegion(rs, 0, x)
    ensures !InRegion(rs, 0, rs[0].Limit())
    ensures forall x: int :: InRegion(rs[1..], 0, x) <==> InRegion(rs, 0, x) && x >= rs[0].Limit()
  {
    var rest := rs[1..];
    forall x: int
      ensures InRegion(rest, 0, x) <==> InRegion(rs, 0, x) && x >= rs[0].Limit()
    {
      RestRegions(rs, x);
    }
  }

  lemma RestRegions(rs: seq<Region>, x: int)
    requires Apart(rs) && rs != []
    ensures InRegion(rs[1..], 0, x) <==> InRegion(rs, 0, x) && x >= rs[0].Limit()
  {
    var rest := rs[1..];
    assert forall k :: 0 <= k < |rest| ==> rest[k] == rs[k + 1];
    if InRegion(rs, 0, x) && x >= rs[0].Limit() {
      var k :| 0 <= k < |rs| && rs[k].offset <= x < rs[k].Limit();
      assert rest[k - 1] == rs[k];
    }
  }

  lemma SameFirst(rs: seq<Region>, qs: seq<Region>)
    requires Apart(rs) && Apart(qs) && SameBytes(rs, qs) && rs != [] && qs != []
    ensures rs[0] == qs[0] && SameBytes(rs[1..], qs[1..])
  {
    FirstRegion(rs);
    FirstRegion(qs);
    var a, b := rs[0], qs[0];
    assert InRegion(rs, 0, a.offset) && InRegion(qs, 0, b.offset);
    assert a.offset == b.offset;
    assert !InRegion(rs, 0, a.Limit()) && !InRegion(qs, 0, b.Limit());
    assert a.Limit() == b.Limit();
  }

  /** Maximal runs: regions that are apart are determined by their bytes. */
  lemma {:induction false} RegionsUnique(rs: seq<Region>, qs: seq<Region>)
    requires Apart(rs) && Apart(qs) && SameBytes(rs, qs)
    ensures rs == qs
  {
    if rs != [] {
      assert InRegion(rs, 0, rs[0].offset);
    }
    if qs != [] {
      assert InRegion(qs, 0, qs[0].offset);
    }
    if rs != [] {
      SameFirst(rs, qs);
      RegionsUnique(rs[1..], qs[1..]);
      assert rs == [rs[0]] + rs[1..] && qs == [qs[0]] + qs[1..];
    }
  }

  lemma ExactUnique(t: Tree, base: nat, rs: seq<Region>, qs: seq<Region>, n: nat)
    requires t.Valid() && n <= |t.tags| && Exact(t, base, rs, n) && Exact(t, base, qs, n)
    ensures rs == qs
  {
    forall x: int
      ensures InRegion(rs, 0, x) <==> InRegion(qs, 0, x)
    {
      assert InRegion(rs, base, x - base) <==> InRegion(qs, base, x - base);
    }
    RegionsUnique(rs, qs);
  }

  // ---------------------------------------------------------------- the scan

  /** The variable want: 2 inside a listed node, 1 inside a child of one, otherwise 0. */
  function WantOf(t: Tree, s: seq<nat>): int {
    if Listed(t, s) then 2 else if Marked(t, s) then 1 else 0
  }

  /** stack[d] holds what want was around the open node number d. */
  ghost predicate Kept(t: Tree, open: seq<nat>, stack: seq<int>) {
    |open| <= |stack| && forall d :: 0 <= d < |open| ==> stack[d] == WantOf(t, open[..d])
  }

  lemma KeptPush(t: Tree, open: seq<nat>, stack: seq<int>, i: nat)
    requires Kept(t, open, stack) && |open| < |stack|
    ensures Kept(t, open + [i], stack[|open| := WantOf(t, open)])
  {
    var more := open + [i];
    assert more[..|open|] == open;
    assert forall d :: 0 <= d < |open| ==> more[..d] == open[..d];
  }

  lemma KeptPop(t: Tree, open: seq<nat>, stack: seq<int>)
    requires Kept(t, open, stack) && open != []
    ensures Kept(t, open[..|open| - 1], stack) && stack[|open| - 1] == WantOf(t, open[..|open| - 1])
  {
    var less := open[..|open| - 1];
    assert forall d :: 0 <= d < |less| ==> less[..d] == open[..d];
  }

  lemma WantPush(t: Tree, open: seq<nat>, i: nat)
    requires i < |t.tags| && t.tags[i].Begin?
    ensures var want := WantOf(t, open);
            WantOf(t, open + [i]) == if t.tags[i].listed then 2 else if want > 0 then want - 1 else 0
    ensures Marked(t, open + [i]) <==> WantOf(t, open + [i]) > 0
  {
    var more := open + [i];
    assert more[|more| - 1] == i && more[..|more| - 1] == open;
  }

  /** The array is full, and there is more, unless the last run has been opened again. */
  ghost predicate Overflown(rs: seq<Region>, runs: seq<Region>, begin: int) {
    rs <= runs && (begin == -1 ==> |rs| < |runs|)
  }

  /** The variables of fdt_find_regions. */
  class Finder {
    const t: Tree
    const base: nat
    const stack: array<int>
    const region: array<Region>
    var depth: int
    var want: int
    var expectEnd: bool
    var start: int
    var count: nat
    /** All maximal runs so far, and where the open one begins. */
    ghost var runs: seq<Region>
    ghost var begin: int

    constructor (t: Tree, base: nat, region: array<Region>)
      requires t.Valid()
      ensures this.t == t && this.base == base && this.region == region && fresh(stack)
      ensures Levels(0) && Regions(0)
    {
      this.t, this.base, this.region := t, base, region;
      stack := new int[MAX_DEPTH];
      depth, want, expectEnd, start, count := -1, 0, false, -1, 0;
      runs, begin := [], -1;
    }

    ghost predicate Levels(i: nat)
      reads this, stack
    {
      && t.Valid() && i <= |t.tags| && stack.Length == MAX_DEPTH && Kept(t, Open(t, i), stack[..])
      && depth == |Open(t, i)| - 1 && want == WantOf(t, Open(t, i)) && expectEnd == Closed(t, i)
    }

    /** The array holds the runs as far as it has room; beyond that, regions are only counted. */
    ghost predicate Regions(i: nat)
      reads this, region
    {
      && t.Valid() && i <= |t.tags| && Track(t, base, runs, begin, i)
      && (count <= region.Length ==> begin == start && runs == region[..count])
      && (count > region.Length ==> (begin == -1 <==> start == -1) && Overflown(region[..], runs, begin))
    }

    /** The switch over the tags: 0, or an error. */
    method Classify(i: nat) returns (error: int, wanted: bool, stopAt: nat)
      requires Levels(i) && i < |t.tags|
      modifies this`depth, this`want, this`expectEnd, stack
      ensures error <= 0 && (error == 0 <==> GoodTag(t, i))
      ensures error == 0 ==> Levels(i + 1) && wanted == Included(t, i) && (!wanted ==> stopAt == Stop(t, i))
    {
      error, wanted, stopAt := 0, false, t.offs[i + 1];
      if expectEnd && t.tags[i] != End {
        return -BADLAYOUT, wanted, stopAt;
      }
      match t.tags[i]
      case Prop(hasName, excluded) =>
        wanted := want >= 2;
        stopAt := t.offs[i];
        if !hasName {
          return -BADSTRUCTURE, wanted, stopAt;
        }
        if excluded {
          wanted := false;
        }
      case Nop =>
        wanted := want >= 2;
        stopAt := t.offs[i];
      case Begin(listed, named, fits) =>
        error, wanted, stopAt := EnterNode(i);
      case EndNode =>
        error, wanted := LeaveNode(i);
      case End =>
        wanted := true;
    }

    method EnterNode(i: nat) returns (error: int, wanted: bool, stopAt: nat)
      requires Levels(i) && i < |t.tags| && t.tags[i].Begin? && !Closed(t, i)
      modifies this`depth, this`want, stack
      ensures error <= 0 && (error == 0 <==> GoodTag(t, i))
      ensures error == 0 ==> Levels(i + 1) && wanted == Included(t, i) && (!wanted ==> stopAt == Stop(t, i))
    {
      wanted, stopAt := false, t.offs[i + 1];
      depth := depth + 1;
      if depth == MAX_DEPTH {
        return -BADSTRUCTURE, wanted, stopAt;
      }
      if depth == 0 && t.tags[i].named {
        return -BADLAYOUT, wanted, stopAt;
      }
      if !t.tags[i].fits {
        return -NOSPACE, wanted, stopAt;
      }
      wanted, stopAt := PushNode(i);
      error := 0;
    }

    /** Behind the checks: depth already counts the new node. */
    method PushNode(i: nat) returns (wanted: bool, stopAt: nat)
      requires t.Valid() && i < |t.tags| && t.tags[i].Begin? && stack.Length == MAX_DEPTH
      requires Kept(t, Open(t, i), stack[..]) && depth == |Open(t, i)| < MAX_DEPTH && want == WantOf(t, Open(t, i))
      modifies this`want, stack
      ensures Kept(t, Open(t, i + 1), stack[..]) && want == WantOf(t, Open(t, i + 1))
      ensures wanted == Included(t, i) && (!wanted ==> stopAt == Stop(t, i))
    {
      stopAt := t.offs[i + 1];
      ghost var open, kept := Open(t, i), stack[..];
      KeptPush(t, open, kept, i);
      WantPush(t, open, i);
      stack[depth] := want;
      assert stack[..] == kept[|open| := WantOf(t, open)] && Open(t, i + 1) == open + [i];
      if want == 1 {
        stopAt := t.offs[i];
      }
      if t.tags[i].listed {
        want := 2;
      } else if want != 0 {
        want := want - 1;
      } else {
        stopAt := t.offs[i];
      }
      wanted := want != 0;
    }

    method LeaveNode(i: nat) returns (error: int, wanted: bool)
      requires Levels(i) && i < |t.tags| && t.tags[i].EndNode? && !Closed(t, i)
      modifies this`depth, this`want, this`expectEnd
      ensures error <= 0 && (error == 0 <==> GoodTag(t, i))
      ensures error == 0 ==> Levels(i + 1) && wanted == Included(t, i)
    {
      if depth < 0 {
        return -BADSTRUCTURE, false;
      }
      wanted := want != 0;
      KeptPop(t, Open(t, i), stack[..]);
      want := stack[depth];
      depth := depth - 1;
      if depth == -1 {
        expectEnd := true;
      }
      error := 0;
    }

    /** Opening, continuing or ending a region. */
    method Emit(i: nat, wanted: bool, stopAt: nat)
      requires i < |t.tags| && Regions(i) && wanted == Included(t, i) && (!wanted ==> stopAt == Stop(t, i))
      modifies this`start, this`count, this`runs, this`begin, region
      ensures Regions(i + 1) && (wanted ==> start != -1)
    {
      if wanted && start == -1 {
        OpenRegion(i);
      } else if !wanted && start != -1 {
        CloseRegion(i, stopAt);
      } else if wanted {
        TrackIncluded(t, base, runs, begin, i);
      } else {
        TrackSkipped(t, base, runs, i);
      }
    }

    method OpenRegion(i: nat)
      requires i < |t.tags| && Regions(i) && Included(t, i) && start == -1
      modifies this`start, this`count, this`runs, this`begin
      ensures Regions(i + 1) && start != -1
    {
      ghost var more, first := TrackOpened(t, base, runs, i);
      if count > 0 && count <= region.Length && t.offs[i] == region[count - 1].offset + region[count - 1].size - base {
        count := count - 1;
        start := region[count].offset - base;
      } else {
        start := t.offs[i];
      }
      runs, begin := more, first;
    }

    method CloseRegion(i: nat, stopAt: nat)
      requires i < |t.tags| && Regions(i) && !Included(t, i) && start != -1 && stopAt == Stop(t, i)
      modifies this`start, this`count, this`runs, this`begin, region
      ensures Regions(i + 1)
    {
      TrackClosed(t, base, runs, begin, i);
      AddRegion(stopAt);
      start, begin := -1, -1;
    }

    /** One tag. */
    method Step(i: nat) returns (error: int)
      requires Levels(i) && Regions(i) && i < |t.tags| && stack != region as object
      modifies this, stack, region
      ensures error <= 0 && (error == 0 <==> GoodTag(t, i))
      ensures error == 0 ==> Levels(i + 1) && Regions(i + 1) && (t.tags[i].End? ==> start != -1)
    {
      var wanted, stopAt;
      error, wanted, stopAt := Classify(i);
      if error == 0 {
        Emit(i, wanted, stopAt);
      }
    }

    /** The open region ends at stopAt; it is stored if there is room. */
    method AddRegion(stopAt: nat)
      requires start != -1 && begin != -1 && 0 <= begin <= stopAt
      requires count <= region.Length ==> begin == start && runs == region[..count]
      requires count > region.Length ==> Overflown(region[..], runs, begin)
      modifies this`count, this`runs, region
      ensures count == old(count) + 1 && runs == old(runs) + [Region(base + begin, stopAt - begin)]
      ensures count <= region.Length ==> runs == region[..count]
      ensures count > region.Length ==> Overflown(region[..], runs, -1)
    {
      ghost var r := Region(base + begin, stopAt - begin);
      if count < region.Length {
        region[count] := Region(base + start, stopAt - start);
        assert region[..count + 1] == runs + [r];
      }
      count, runs := count + 1, runs + [r];
    }

    /** The region that reaches up to the end of the structure block. */
    method Finish(n: nat)
      requires n <= |t.tags| && Regions(n) && start != -1
      modifies this`count, this`runs, region
      ensures count > 0 && Exact(t, base, runs, n) && Delivered(count, region[..], runs)
    {
      TrackFinal(t, base, runs, begin, n);
      AddRegion(t.offs[n]);
    }
  }

  /** All runs if there are no more than the array holds, otherwise the first ones. */
  ghost predicate Delivered(count: nat, rs: seq<Region>, runs: seq<Region>) {
    if count <= |rs| then runs == rs[..count] else rs < runs
  }

  lemma TrackFinal(t: Tree, base: nat, rs: seq<Region>, start: int, n: nat)
    requires t.Valid() && n <= |t.tags| && Track(t, base, rs, start, n) && start != -1
    ensures Exact(t, base, rs + [Region(base + start, t.offs[n] - start)], n)
  {
    var r := Region(base + start, t.offs[n] - start);
    var made := rs + [r];
    forall x: int
      ensures InRegion(made, base, x) <==> CoveredByte(t, n, x)
    {
      InMore(rs, r, base, x);
      assert Shown(rs, base, start, t.offs[n], x) <==> CoveredByte(t, n, x);
    }
  }

  lemma GoesAt(t: Tree, n: nat, i: nat)
    requires n <= |t.tags| && Goes(t, n) && i < n
    ensures GoodTag(t, i) && !t.tags[i].End?
  {
  }

  /** A tag that is not good, or a missing end, before the first End tag. */
  lemma NotAccepted(t: Tree, size: nat, i: nat)
    requires t.Valid() && i <= |t.tags| && Goes(t, i)
    requires i < |t.tags| ==> !GoodTag(t, i) || (t.tags[i].End? && t.offs[i + 1] != size)
    ensures !Accepted(t, size)
  {
    forall n | 0 <= n < |t.tags| && Goes(t, n) && t.tags[n].End?
      ensures t.offs[n + 1] != size
    {
      if n < i {
        GoesAt(t, i, n);
      }
    }
  }

  /**
    fdt_find_regions without the string table.  It succeeds exactly for the accepted trees.  The runs are
    the maximal runs of covered bytes up to the End tag (number last); they are all in the array if the
    number returned does not exceed it.  It exceeds it exactly if there are more runs than that, and
    then the array holds the first ones.
   */
  method FindRegions(t: Tree, size: nat, base: nat, region: array<Region>)
    returns (r: int, ghost last: nat, ghost runs: seq<Region>)
    requires t.Valid()
    modifies region
    ensures r != 0 && (r > 0 <==> Accepted(t, size))
    ensures r > 0 ==> last < |t.tags| && Goes(t, last) && t.tags[last].End? && t.offs[last + 1] == size
    ensures r > 0 ==> Apart(runs) && forall x: int :: InRegion(runs, base, x) <==> NeededByte(t, last + 1, x)
    ensures r > 0 ==> Exact(t, base, runs, last + 1) && (r > region.Length <==> |runs| > region.Length)
    ensures r > 0 ==> if r <= region.Length then region[..r] == runs else region[..] < runs
  {
    var f := new Finder(t, base, region);
    var i := 0;
    last, runs := 0, [];
    while i < |t.tags|
      invariant 0 <= i <= |t.tags| && f.t == t && f.base == base && f.region == region && fresh(f) && fresh(f.stack)
      invariant f.Levels(i) && f.Regions(i) && Goes(t, i)
    {
      var error := f.Step(i);
      if error != 0 {
        NotAccepted(t, size, i);
        return error, last, runs;
      }
      if t.tags[i] == End {
        if t.offs[i + 1] != size {
          NotAccepted(t, size, i);
          return -BADLAYOUT, last, runs;
        }
        f.Finish(i + 1);
        forall x: int
          ensures InRegion(f.runs, base, x) <==> NeededByte(t, i + 1, x)
        {
          NeededIsCovered(t, i + 1, x);
        }
        return f.count, i, f.runs;
      }
      i := i + 1;
    }
    // No tag can be read here: the scan ends as if it had met the end, at a negative offset.
    NotAccepted(t, size, i);
    return -BADLAYOUT, last, runs;
  }
}
