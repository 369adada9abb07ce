/**
  The drivers of genimage.c: image_setup and image_generate walk the images depth first, children
  before parents, and share the fields seen and done, which hold -1 for the first phase and 1 for
  the second.
 */
module GenimageDriver {
  import opened Common

  /** A partition: without an image, with an image that image_get finds, or with one it does not. */
  datatype Part = NoImage | Missing | Child(image: nat)

  /** setupOk and generateOk: the handler (and what is run before and after it) returns 0. */
  datatype Image = Image(parts: seq<Part>, setupOk: bool, generateOk: bool)

  const EINVAL: int := 22

  datatype Graph = Graph(images: seq<Image>) {
    ghost predicate Valid() {
      forall i, p :: 0 <= i < |images| && p in images[i].parts && p.Child? ==> p.image < |images|
    }

    ghost predicate Edge(i: nat, c: nat) {
      i < |images| && Child(c) in images[i].parts
    }

    ghost predicate AllFound() {
      forall i :: 0 <= i < |images| ==> Missing !in images[i].parts
    }

    predicate HandlerOk(sign: int, i: nat)
      requires i < |images|
    {
      if sign < 0 then images[i].setupOk else images[i].generateOk
    }

    ghost predicate AllOk(sign: int) {
      forall i :: 0 <= i < |images| ==> HandlerOk(sign, i)
    }

    /** Numbers can be given to the images so that every child has a smaller one. */
    ghost predicate Ranked(rank: seq<nat>) {
      |rank| == |images| && forall i: nat, c: nat :: Edge(i, c) ==> c < |rank| && rank[c] < rank[i]
    }

    ghost predicate Acyclic() {
      exists rank :: Ranked(rank)
    }

    /** Nothing stands in the way of a phase. */
    ghost predicate Buildable(sign: int) {
      Acyclic() && AllFound() && AllOk(sign)
    }
  }

  // ---------------------------------------------------------------- orders

  ghost predicate IsPath(g: Graph, p: seq<nat>) {
    forall i :: 0 <= i < |p| - 1 ==> g.Edge(p[i], p[i + 1])
  }

  lemma {:induction false} PathFalls(g: Graph, rank: seq<nat>, p: seq<nat>, i: nat)
    requires g.Ranked(rank) && IsPath(g, p) && i < |p| && (forall k :: 0 <= k < |p| ==> p[k] < |rank|)
    ensures rank[p[|p| - 1]] <= rank[p[i]]
    decreases |p| - i
  {
    if i < |p| - 1 {
      assert g.Edge(p[i], p[i + 1]);
      PathFalls(g, rank, p, i + 1);
    }
  }

  /** An image that is met again while it is being worked on. */
  lemma MetAgain(g: Graph, p: seq<nat>, i: nat)
    requires IsPath(g, p) && (forall k :: 0 <= k < |p| ==> p[k] < |g.images|)
    requires i in p && g.Edge(p[|p| - 1], i)
    ensures !g.Acyclic()
  {
    forall rank | g.Ranked(rank)
      ensures false
    {
      var k :| 0 <= k < |p| && p[k] == i;
      PathFalls(g, rank, p, k);
    }
  }

  /** Each image once, and behind all of its children. */
  ghost predicate Ordered(g: Graph, log: seq<nat>) {
    && (forall k :: 0 <= k < |log| ==> log[k] < |g.images|)
    && (forall k, l :: 0 <= k < l < |log| ==> log[k] != log[l])
    && (forall k, c :: 0 <= k < |log| && g.Edge(log[k], c) ==> c in log[..k])
  }

  /** All images, each once and behind all of its children. */
  ghost predicate Complete(g: Graph, log: seq<nat>) {
    Ordered(g, log) && forall i: nat :: i < |g.images| ==> i in log
  }

  lemma CompleteIsAcyclic(g: Graph, log: seq<nat>)
    requires g.Valid() && Complete(g, log)
    ensures g.Acyclic()
  {
    var rank := seq(|g.images|, i requires 0 <= i < |g.images| => IndexOf(i, log));
    forall i: nat, c: nat | g.Edge(i, c)
      ensures c < |rank| && rank[c] < rank[i]
    {
      var k := IndexOf(i, log);
      assert c in log[..k];
      var l :| 0 <= l < k && log[l] == c;
      assert log[IndexOf(c, log)] == c;
    }
    assert g.Ranked(rank);
  }

  lemma OrderedMore(g: Graph, log: seq<nat>, i: nat)
    requires Ordered(g, log) && i < |g.images| && i !in log && forall c: nat :: g.Edge(i, c) ==> c in log
    ensures Ordered(g, log + [i])
  {
    var more := log + [i];
    forall k, c: nat | 0 <= k < |more| && g.Edge(more[k], c)
      ensures c in more[..k]
    {
      assert more[..k] == log[..k];
    }
  }

  // ---------------------------------------------------------------- the fields and the walk

  /** A field carries the mark of the phase: negative for setup, positive for generate. */
  predicate Has(v: int, sign: int) {
    if sign < 0 then v < 0 else v > 0
  }

  /** Parts 0 up to n have an image that is done, or none. */
  ghost predicate PartsDone(parts: seq<Part>, n: nat, log: seq<nat>) {
    forall k :: 0 <= k < n && k < |parts| ==> !parts[k].Missing? && (parts[k].Child? ==> parts[k].image in log)
  }

  /** The image on top of the stack is done. */
  lemma Popped(g: Graph, log: seq<nat>, p: seq<nat>, i: nat)
    requires IsPath(g, p) && p != [] && p[|p| - 1] == i
    requires (forall k :: 0 <= k < |p| ==> p[k] !in log) && (forall k, l :: 0 <= k < l < |p| ==> p[k] != p[l])
    ensures var rest := p[..|p| - 1];
            && IsPath(g, rest) && (forall k :: 0 <= k < |rest| ==> rest[k] !in log + [i])
            && (forall x :: x in p <==> x in rest || x == i) && i !in rest
  {
    var rest := p[..|p| - 1];
    forall k | 0 <= k < |rest| - 1
      ensures g.Edge(rest[k], rest[k + 1])
    {
      assert g.Edge(p[k], p[k + 1]);
    }
    assert forall k :: 0 <= k < |rest| ==> rest[k] == p[k];
  }

  class Driver {
    const g: Graph
    var seen: seq<int>
    var done: seq<int>
    /** The handlers run in this phase, and the images being worked on, outermost first. */
    ghost var log: seq<nat>
    ghost var stack: seq<nat>

    ghost predicate Sized()
      reads this
    {
      g.Valid() && |seen| == |done| == |g.images|
    }

    /** An image has been seen in this phase if it is done or being worked on. */
    ghost predicate Valid(sign: int)
      reads this
    {
      && Sized() && Ordered(g, log) && IsPath(g, stack)
      && (forall k :: 0 <= k < |stack| ==> stack[k] < |g.images| && stack[k] !in log)
      && (forall k, l :: 0 <= k < l < |stack| ==> stack[k] != stack[l])
      && (forall i :: 0 <= i < |seen| ==> (Has(seen[i], sign) <==> i in log || i in stack))
      && (forall i :: 0 <= i < |done| ==> (Has(done[i], sign) <==> i in log))
      && (forall i :: i in log ==> g.HandlerOk(sign, i) && Missing !in g.images[i].parts)
    }

    ghost function Unseen(): set<nat>
      reads this
    {
      (Below(|g.images|) - (set i | i in log)) - (set i | i in stack)
    }

    /** image_setup (sign -1) and image_generate (sign 1). */
    method Visit(i: nat, sign: int) returns (ret: int)
      requires Valid(sign) && sign != 0 && i < |g.images| && (stack != [] ==> g.Edge(stack[|stack| - 1], i))
      modifies this
      ensures Sized() && (ret != 0 ==> !g.Buildable(sign))
      ensures ret == 0 ==> Valid(sign) && stack == old(stack) && old(log) <= log && i in log
      decreases Unseen(), 1, 0
    {
      if Has(done[i], sign) {
        return 0;
      }
      if Has(seen[i], sign) {
        MetAgain(g, stack, i);
        return -EINVAL;
      }
      Enter(i, sign);
      ret := Children(i, sign);
      if ret != 0 {
        return;
      }
      if !g.HandlerOk(sign, i) {
        return -EINVAL;
      }
      Leave(i, sign);
    }

    method Enter(i: nat, sign: int)
      requires Valid(sign) && sign != 0 && i < |g.images| && (stack != [] ==> g.Edge(stack[|stack| - 1], i))
      requires i !in log && i !in stack
      modifies this`seen, this`stack
      ensures Valid(sign) && stack == old(stack) + [i] && Unseen() < old(Unseen())
    {
      seen := seen[i := sign];
      ghost var before := stack;
      stack := stack + [i];
      forall k | 0 <= k < |stack| - 1
        ensures g.Edge(stack[k], stack[k + 1])
      {
        if k < |before| - 1 {
          assert g.Edge(before[k], before[k + 1]);
        }
      }
      assert i in old(Unseen()) && i !in Unseen();
    }

    method Leave(i: nat, sign: int)
      requires Valid(sign) && sign != 0 && stack != [] && stack[|stack| - 1] == i
      requires i < |g.images| && g.HandlerOk(sign, i) && PartsDone(g.images[i].parts, |g.images[i].parts|, log)
      modifies this`done, this`log, this`stack
      ensures Valid(sign) && stack == old(stack)[..|old(stack)| - 1] && log == old(log) + [i]
    {
      OrderedMore(g, log, i);
      Popped(g, log, stack, i);
      done := done[i := sign];
      log := log + [i];
      stack := stack[..|stack| - 1];
    }

    /** The loop over the partitions. */
    method Children(i: nat, sign: int) returns (ret: int)
      requires Valid(sign) && sign != 0 && i < |g.images| && stack != [] && stack[|stack| - 1] == i
      modifies this
      ensures Sized() && (ret != 0 ==> !g.Buildable(sign))
      ensures ret == 0 ==> Valid(sign) && stack == old(stack) && old(log) <= log
      ensures ret == 0 ==> PartsDone(g.images[i].parts, |g.images[i].parts|, log)
      decreases Unseen(), 2, 0
    {
      var parts := g.images[i].parts;
      var k := 0;
      while k < |parts|
        invariant k <= |parts| && Valid(sign) && stack == old(stack) && old(log) <= log
        invariant PartsDone(parts, k, log)
        decreases |parts| - k
      {
        match parts[k] {
          case NoImage =>
          case Missing =>
            return -EINVAL;
          case Child(c) =>
            assert g.Edge(i, c) by {
              assert parts[k] in parts;
            }
            ret := Visit(c, sign);
            if ret != 0 {
              return;
            }
        }
        k := k + 1;
      }
      ret := 0;
    }

    /** No image carries the mark of the phase. */
    ghost predicate Fresh(sign: int)
      reads this
    {
      Sized() && forall i :: 0 <= i < |g.images| ==> !Has(seen[i], sign) && !Has(done[i], sign)
    }

    constructor (g: Graph)
      requires g.Valid()
      ensures this.g == g && Fresh(-1)
    {
      this.g := g;
      seen, done := seq(|g.images|, _ => 0), seq(|g.images|, _ => 0);
      log, stack := [], [];
    }

    /** One of the two loops over all images in main. */
    method Phase(sign: int) returns (ret: int)
      requires Fresh(sign) && sign != 0
      modifies this
      ensures ret == 0 <==> g.Buildable(sign)
      ensures ret == 0 ==> Complete(g, log) && Sized()
      ensures ret == 0 ==> forall i :: 0 <= i < |g.images| ==> Has(seen[i], sign) && Has(done[i], sign)
    {
      log, stack := [], [];
      var i := 0;
      while i < |g.images|
        invariant i <= |g.images| && Valid(sign) && stack == []
        invariant forall k: nat :: k < i ==> k in log
      {
        ret := Visit(i, sign);
        if ret != 0 {
          return;
        }
        i := i + 1;
      }
      CompleteIsAcyclic(g, log);
      ret := 0;
    }

    /**
      The two phases of main: images are built exactly when the graph has no cycle, every child is
      found and every handler succeeds; then each phase has run every handler once, children first.
     */
    method Build() returns (ret: int, ghost setups: seq<nat>, ghost generates: seq<nat>)
      requires Fresh(-1)
      modifies this
      ensures ret == 0 <==> g.Acyclic() && g.AllFound() && g.AllOk(-1) && g.AllOk(1)
      ensures ret == 0 ==> Complete(g, setups) && Complete(g, generates)
      ensures !g.Buildable(-1) ==> generates == []
    {
      setups, generates := [], [];
      ret := Phase(-1);
      if ret != 0 {
        return;
      }
      setups := log;
      ret := Phase(1);
      generates := log;
    }
  }
}
