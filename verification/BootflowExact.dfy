/**
  What the bootflow scan of U-Boot's bootflow.c is meant to try, said attempt by attempt and without
  loops, and that the nested loops try exactly that.
 */
module BootflowExact {
  import opened BootflowLoops

  /** Two attempts on one bootdev. */
  predicate SameDev(a: Pos, b: Pos) {
    !a.global && !b.global && a.dev == b.dev
  }

  /** An attempt the world has room for: the global bootmeths, then all bootdevs up to one that is not ready. */
  ghost predicate Possible(w: World, pos: Pos) {
    if pos.global then pos.dev == pos.part == 0 && w.firstGlobal <= pos.meth < w.meths
    else pos.meth < w.Width() && pos.part <= MAX_PART && forall d: nat :: d <= pos.dev ==> w.Ready(d)
  }

  /** No earlier attempt is a hit, or says that there are no more partitions on this bootdev. */
  predicate Open(w: World, trace: seq<Pos>, pos: Pos) {
    forall x :: x in trace && Less(x, pos) ==>
      !w.Stops(w.check(x).err) && !(SameDev(x, pos) && w.check(x).err == NO_MORE_PARTS)
  }

  /** An attempt on an earlier partition of the bootdev has found media. */
  predicate Media(w: World, trace: seq<Pos>, pos: Pos) {
    exists x :: x in trace && SameDev(x, pos) && x.part < pos.part && w.check(x).media
  }

  /** The attempt is due in a scan that tries these. */
  ghost predicate Due(w: World, trace: seq<Pos>, pos: Pos) {
    Possible(w, pos) && Open(w, trace, pos) && (pos.part > 0 ==> Media(w, trace, pos))
  }

  /** From an attempt on, rest is what is due after what has been tried before. */
  ghost predicate Exact(w: World, prior: seq<Pos>, rest: seq<Pos>, from: Pos) {
    && Increasing(rest) && (forall x {:trigger Less(x, from)} :: x in rest ==> !Less(x, from))
    && (forall pos {:trigger Due(w, prior + rest, pos)} ::
          !Less(pos, from) ==> (pos in rest <==> Due(w, prior + rest, pos)))
  }

  // ---------------------------------------------------------------- one step of a scan

  /** Nothing more is due. */
  lemma Stop(w: World, prior: seq<Pos>, from: Pos)
    requires forall pos :: !Less(pos, from) ==> !Due(w, prior, pos)
    ensures Exact(w, prior, [], from)
  {
    assert prior + [] == prior;
  }

  /** Nothing is due in between. */
  lemma Skip(w: World, prior: seq<Pos>, rest: seq<Pos>, from: Pos, next: Pos)
    requires !Less(next, from) && Exact(w, prior, rest, next)
    requires forall pos :: !Less(pos, from) && Less(pos, next) ==> !Due(w, prior + rest, pos)
    ensures Exact(w, prior, rest, from)
  {
    forall x | x in rest
      ensures !Less(x, from)
    {
      assert !Less(x, next);
    }
    forall pos | !Less(pos, from)
      ensures pos in rest <==> Due(w, prior + rest, pos)
    {
      assert pos in rest ==> !Less(pos, next);
    }
  }

  /** An attempt that is due, and the rest. */
  lemma Try(w: World, prior: seq<Pos>, rest: seq<Pos>, here: Pos)
    requires Exact(w, prior + [here], rest, here.(meth := here.meth + 1))
    requires Due(w, prior, here)
    ensures Exact(w, prior, [here] + rest, here)
  {
    var all := [here] + rest;
    var next := here.(meth := here.meth + 1);
    assert prior + all == (prior + [here]) + rest;
    forall i, j | 0 <= i < j < |all|
      ensures Less(all[i], all[j])
    {
      assert all[j] == rest[j - 1] && all[j] in rest;
      assert !Less(all[j], next);
    }
    forall x | x in rest
      ensures Less(here, x)
    {
      assert !Less(x, next);
    }
    forall pos | !Less(pos, here)
      ensures pos in all <==> Due(w, prior + all, pos)
    {
      if pos == here {
        assert forall x :: x in prior + all && Less(x, here) ==> x in prior;
        if here.part > 0 {
          var x :| x in prior && SameDev(x, here) && x.part < here.part && w.check(x).media;
          assert x in prior + all;
        }
      } else {
        assert !Less(pos, next);
      }
    }
  }

  // ---------------------------------------------------------------- the loops

  /** What was tried before these come: all of it earlier, and no hit. */
  predicate Before(w: World, prior: seq<Pos>, here: Pos) {
    forall x :: x in prior ==> Less(x, here) && !w.Stops(w.check(x).err)
  }

  /** On a bootdev: it is ready, nothing has ended it, and the partitions are open if there is media. */
  ghost predicate On(w: World, prior: seq<Pos>, here: Pos, max: nat) {
    && !here.global && Before(w, prior, here) && here.part <= max <= MAX_PART
    && (forall d: nat :: d <= here.dev ==> w.Ready(d))
    && (forall x :: x in prior && SameDev(x, here) ==> w.check(x).err != NO_MORE_PARTS)
    && (if max == 0 then NoMedia(w, prior, here.dev) else max == MAX_PART && Media(w, prior, here.(part := 1)))
  }

  predicate NoMedia(w: World, prior: seq<Pos>, d: nat) {
    forall x :: x in prior && !x.global && x.dev == d ==> !w.check(x).media
  }

  lemma OnIsDue(w: World, prior: seq<Pos>, here: Pos, max: nat)
    requires On(w, prior, here, max) && here.meth < w.Width()
    ensures Due(w, prior, here)
  {
    if here.part > 0 {
      var x :| x in prior && SameDev(x, here) && x.part < 1 && w.check(x).media;
      assert SameDev(x, here) && x.part < here.part;
    }
  }

  /** After an attempt that is neither a hit nor the last partition. */
  lemma OnNext(w: World, prior: seq<Pos>, here: Pos, max: nat)
    requires On(w, prior, here, max) && !w.Stops(w.check(here).err) && w.check(here).err != NO_MORE_PARTS
    ensures On(w, prior + [here], here.(meth := here.meth + 1), w.MaxAfter(here, max))
  {
    var now, next := prior + [here], here.(meth := here.meth + 1);
    if w.MaxAfter(here, max) != 0 {
      assert Media(w, now, next.(part := 1)) by {
        if max == 0 {
          assert here in now && SameDev(here, next.(part := 1));
        } else {
          var x :| x in prior && SameDev(x, here.(part := 1)) && x.part < 1 && w.check(x).media;
          assert x in now;
        }
      }
    }
  }

  /** Bootdev d comes next, and all bootdevs before it are ready. */
  ghost predicate Reached(w: World, prior: seq<Pos>, d: nat) {
    Before(w, prior, Pos(false, d, 0, 0)) && forall b: nat :: b < d ==> w.Ready(b)
  }

  lemma OnReaches(w: World, prior: seq<Pos>, here: Pos, max: nat)
    requires On(w, prior, here, max)
    ensures Reached(w, prior, here.dev + 1)
    ensures here.dev < w.Devs() && here.part <= max <= MAX_PART && !here.global
    ensures !w.Stops(w.check(here).err) ==> Reached(w, prior + [here], here.dev + 1)
  {
    assert w.Ready(here.dev);
  }

  lemma OnNextPart(w: World, prior: seq<Pos>, here: Pos, max: nat)
    requires On(w, prior, here, max) && here.part < max
    ensures On(w, prior, Pos(false, here.dev, here.part + 1, 0), max)
  {}

  lemma OnStart(w: World, prior: seq<Pos>, d: nat)
    requires Reached(w, prior, d) && w.Ready(d)
    ensures On(w, prior, Pos(false, d, 0, 0), 0)
  {}

  /** A hit ends the scan. */
  lemma HitExact(w: World, prior: seq<Pos>, here: Pos)
    requires Due(w, prior, here) && w.Stops(w.check(here).err)
    ensures Exact(w, prior, [here], here)
  {
    assert here in prior + [here];
    Stop(w, prior + [here], here.(meth := here.meth + 1));
    Try(w, prior, [], here);
    assert [here] + [] == [here];
  }

  /** Behind the last partition the next bootdev comes. */
  lemma CutExact(w: World, prior: seq<Pos>, rest: seq<Pos>, here: Pos)
    requires Due(w, prior, here) && !here.global && w.check(here).err == NO_MORE_PARTS
    requires Exact(w, prior + [here], rest, Pos(false, here.dev + 1, 0, 0))
    ensures Exact(w, prior, [here] + rest, here)
  {
    var now, next := prior + [here], here.(meth := here.meth + 1);
    assert here in now + rest;
    forall pos | !Less(pos, next) && Less(pos, Pos(false, here.dev + 1, 0, 0))
      ensures !Due(w, now + rest, pos)
    {
      assert Less(here, pos) && SameDev(here, pos);
    }
    Skip(w, now, rest, next, Pos(false, here.dev + 1, 0, 0));
    Try(w, prior, rest, here);
  }

  /** From an attempt on; what comes behind it may be known already. */
  lemma MethTried(w: World, prior: seq<Pos>, here: Pos, max: nat)
    requires On(w, prior, here, max) && here.meth < w.Width()
    requires var err, now, next := w.check(here).err, prior + [here], here.(meth := here.meth + 1);
             if w.Stops(err) then true
             else if err == NO_MORE_PARTS then
               Exact(w, now, Devices(w, true, here.dev + 1), Pos(false, here.dev + 1, 0, 0))
             else Exact(w, now, FromHere(w, next, w.MaxAfter(here, max)), next)
    ensures Exact(w, prior, FromHere(w, here, max), here)
  {
    var err, now, next := w.check(here).err, prior + [here], here.(meth := here.meth + 1);
    FromMethStep(w, true, here.dev, here.part, here.meth, max);
    OnIsDue(w, prior, here, max);
    if w.Stops(err) {
      HitExact(w, prior, here);
    } else if err == NO_MORE_PARTS {
      CutExact(w, prior, Devices(w, true, here.dev + 1), here);
    } else {
      Try(w, prior, FromHere(w, next, w.MaxAfter(here, max)), here);
    }
  }

  function FromHere(w: World, here: Pos, max: nat): seq<Pos> {
    FromMeth(w, true, here.dev, here.part, here.meth, max)
  }

  /** From a bootmeth on. */
  lemma {:induction false} MethExact(w: World, prior: seq<Pos>, here: Pos, max: nat)
    requires On(w, prior, here, max) && here.meth < w.Width()
    ensures Exact(w, prior, FromHere(w, here, max), here)
    decreases w.Devs() - here.dev, 1, MAX_PART + 1 - here.part, w.Width() - here.meth, 0
  {
    OnReaches(w, prior, here, max);
    if !w.Stops(w.check(here).err) {
      if w.check(here).err == NO_MORE_PARTS {
        DevicesExact(w, prior + [here], here.dev + 1);
      } else {
        OnNext(w, prior, here, max);
        AfterExact(w, prior + [here], here.(meth := here.meth + 1), w.MaxAfter(here, max));
      }
    }
    MethTried(w, prior, here, max);
  }

  /** The same where the bootmeths may be used up. */
  lemma {:induction false} AfterExact(w: World, prior: seq<Pos>, here: Pos, max: nat)
    requires On(w, prior, here, max) && here.meth <= w.Width()
    ensures Exact(w, prior, FromHere(w, here, max), here)
    decreases w.Devs() - here.dev, 1, MAX_PART + 1 - here.part, w.Width() - here.meth, 1
  {
    OnReaches(w, prior, here, max);
    if here.meth < w.Width() {
      MethExact(w, prior, here, max);
    } else if here.part < max {
      OnNextPart(w, prior, here, max);
      MethExact(w, prior, Pos(false, here.dev, here.part + 1, 0), max);
      NextPartExact(w, prior, here, max);
    } else {
      DevicesExact(w, prior, here.dev + 1);
      NextDevExact(w, prior, here, max);
    }
  }

  lemma NextPartExact(w: World, prior: seq<Pos>, here: Pos, max: nat)
    requires !here.global && here.meth == w.Width() && here.part < max <= MAX_PART
    requires var next := Pos(false, here.dev, here.part + 1, 0); Exact(w, prior, FromHere(w, next, max), next)
    ensures Exact(w, prior, FromHere(w, here, max), here)
  {
    var next := Pos(false, here.dev, here.part + 1, 0);
    var rest := FromHere(w, next, max);
    Skip(w, prior, rest, here, next);
    FromMethEnd(w, true, here.dev, here.part, here.meth, max);
    FromPartStart(w, true, here.dev, here.part + 1, max);
    assert FromHere(w, here, max) == rest;
  }

  /** Nothing is due between the last partition and the next bootdev. */
  lemma NextDevExact(w: World, prior: seq<Pos>, here: Pos, max: nat)
    requires On(w, prior, here, max) && here.meth == w.Width() && here.part == max
    requires Exact(w, prior, Devices(w, true, here.dev + 1), Pos(false, here.dev + 1, 0, 0))
    ensures Exact(w, prior, FromHere(w, here, max), here)
  {
    var rest := Devices(w, true, here.dev + 1);
    forall pos | !Less(pos, here) && Less(pos, Pos(false, here.dev + 1, 0, 0))
      ensures !Due(w, prior + rest, pos)
    {
      if Media(w, prior + rest, pos) {
        var x :| x in prior + rest && SameDev(x, pos) && x.part < pos.part && w.check(x).media;
        assert x in rest ==> !Less(x, Pos(false, here.dev + 1, 0, 0));
      }
    }
    Skip(w, prior, rest, here, Pos(false, here.dev + 1, 0, 0));
    FromMethEnd(w, true, here.dev, here.part, here.meth, max);
    FromPartEnd(w, true, here.dev, here.part + 1, max);
    assert FromHere(w, here, max) == rest;
  }

  /** From a bootdev on. */
  lemma {:induction false} DevicesExact(w: World, prior: seq<Pos>, d: nat)
    requires Reached(w, prior, d)
    ensures Exact(w, prior, Devices(w, true, d), Pos(false, d, 0, 0))
    decreases w.Devs() - d, 2
  {
    if w.Ready(d) {
      DeviceStart(w, true, d);
      OnStart(w, prior, d);
      MethExact(w, prior, Pos(false, d, 0, 0), 0);
    } else {
      Stop(w, prior, Pos(false, d, 0, 0));
    }
  }

  /** From a global bootmeth on. */
  lemma {:induction false} GlobalsExact(w: World, prior: seq<Pos>, m: nat)
    requires w.Valid() && w.firstGlobal <= m <= w.meths && Before(w, prior, Pos(true, 0, 0, m))
    ensures Exact(w, prior, Globals(w, true, 0, m), Pos(true, 0, 0, m))
    decreases w.meths - m
  {
    var here := Pos(true, 0, 0, m);
    if m == w.meths {
      DevicesExact(w, prior, 0);
      Skip(w, prior, Devices(w, true, 0), here, Pos(false, 0, 0, 0));
    } else if w.Stops(w.check(here).err) {
      assert here in prior + [here];
      Stop(w, prior + [here], here.(meth := m + 1));
      Try(w, prior, [], here);
      assert [here] + [] == [here];
    } else {
      GlobalsExact(w, prior + [here], m + 1);
      Try(w, prior, Globals(w, true, 0, m + 1), here);
    }
  }

  /**
    The scan as intended, without its loops: in order, exactly those attempts that are possible, whose
    partition is open, and before which there was neither a hit nor the last partition of the bootdev.
   */
  lemma IntendedExact(w: World)
    requires w.Valid()
    ensures var trace := Nested(w, true);
            Increasing(trace) && forall pos :: pos in trace <==> Due(w, trace, pos)
  {
    GlobalsExact(w, [], w.firstGlobal);
    var trace, from := Nested(w, true), Pos(true, 0, 0, w.firstGlobal);
    assert [] + trace == trace;
    forall pos
      ensures pos in trace <==> Due(w, trace, pos)
    {
      assert Possible(w, pos) ==> !Less(pos, from);
    }
  }
}
