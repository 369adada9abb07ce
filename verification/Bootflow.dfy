/**
  The bootflow scan of U-Boot's bootflow.c: a flat iterator over bootdevs, partitions and bootmeths
  that is moved by iter_incr, against the nested loops it stands for.
 */
module Bootflow {
  import opened BootflowLoops

  /** What the coded loops try from an attempt on, and after it has returned err. */
  function From(w: World, pos: Pos, max: nat): seq<Pos> {
    if pos.global then Globals(w, false, pos.dev, pos.meth) else FromMeth(w, false, pos.dev, pos.part, pos.meth, max)
  }

  function Left(w: World, pos: Pos, max: nat, err: int): seq<Pos> {
    if err == NO_MORE_DEVICES then []
    else if err == NO_MORE_PARTS then NextDev(w, pos.global, pos.dev)
    else if pos.global then Globals(w, false, pos.dev, pos.meth + 1)
    else FromMeth(w, false, pos.dev, pos.part, pos.meth + 1, max)
  }

  /** From the next bootdev on, in the same phase. */
  function NextDev(w: World, global: bool, d: nat): seq<Pos> {
    if !global then Devices(w, false, d + 1)
    else if w.Ready(d + 1) then Globals(w, false, d + 1, 0)
    else []
  }

  lemma AttemptStep(w: World, pos: Pos, max: nat)
    requires if pos.global then pos.meth < w.meths && pos.part == 0 else pos.meth < w.Width()
    ensures var err := w.check(pos).err;
            From(w, pos, max) == if w.Stops(err) then [pos] else [pos] + Left(w, pos, w.MaxAfter(pos, max), err)
  {
    if !pos.global {
      FromMethStep(w, false, pos.dev, pos.part, pos.meth, max);
    }
  }

  /** One more attempt of the nested loops. */
  lemma LoopsStep(w: World, all: seq<Pos>, before: seq<Pos>, pos: Pos, max: nat)
    requires if pos.global then pos.meth < w.meths && pos.part == 0 else pos.meth < w.Width()
    requires all == before + From(w, pos, max)
    ensures var err := w.check(pos).err;
            all == if w.Stops(err) then before + [pos] else (before + [pos]) + Left(w, pos, w.MaxAfter(pos, max), err)
  {
    AttemptStep(w, pos, max);
    var left := Left(w, pos, w.MaxAfter(pos, max), w.check(pos).err);
    assert before + ([pos] + left) == (before + [pos]) + left;
  }

  // ---------------------------------------------------------------- the flat iterator

  /** struct bootflow_iter; trace is what has been tried. */
  class Iter {
    const w: World
    var part: nat
    var maxPart: nat
    var err: int
    var curDev: nat
    var numMeths: nat
    var curMeth: nat
    var doingGlobal: bool
    ghost var trace: seq<Pos>

    ghost predicate Valid()
      reads this
    {
      && w.Valid() && part <= maxPart <= MAX_PART && curDev < w.Devs() && Increasing(trace)
      && (if doingGlobal then
            numMeths == w.meths && curMeth < numMeths && maxPart == 0 && !w.single
          else
            numMeths == w.firstGlobal && curMeth < w.Width())
    }

    /** The attempt the iterator points at. */
    function Here(): Pos
      reads this
    {
      Pos(doingGlobal, curDev, part, curMeth)
    }

    /** What the nested loops still try, from here on and after here. */
    ghost function Ahead(): seq<Pos>
      reads this
    {
      From(w, Here(), maxPart)
    }

    ghost function Rest(): seq<Pos>
      reads this
    {
      Left(w, Here(), maxPart, err)
    }

    /** bootflow_iter_init and the setup of the orders. */
    constructor (w: World)
      requires w.Valid()
      ensures this.w == w && Valid() && trace == [] && err == 0 && Ahead() == Nested(w, false)
    {
      this.w := w;
      part, maxPart, err, curDev, trace := 0, 0, 0, 0, [];
      numMeths := w.meths;
      curMeth := if w.firstGlobal != w.meths then w.firstGlobal else 0;
      doingGlobal := w.firstGlobal != w.meths;
      new;
      if !doingGlobal {
        DeviceStart(w, false, 0);
      }
    }

    /** iter_incr: on to the next attempt, which is a later one, or nothing is left. */
    method Incr() returns (ret: int)
      requires Valid()
      modifies this`part, this`maxPart, this`curDev, this`numMeths, this`curMeth, this`doingGlobal
      ensures ret == 0 || ret == NO_MORE_DEVICES
      ensures ret == 0 ==> Valid() && Less(old(Here()), Here())
      ensures old(Rest()) == if ret == 0 then Ahead() else []
    {
      var incDev := true;
      if err == NO_MORE_DEVICES {
        return NO_MORE_DEVICES;
      }
      if err != NO_MORE_PARTS {
        var found;
        found, incDev := NextOnDevice();
        if found {
          return 0;
        }
      }
      curMeth, part, maxPart := 0, 0, 0;
      ret := NextDevice(incDev);
    }

    /** The first part of iter_incr: the next bootmeth, or the first one on the next partition. */
    method NextOnDevice() returns (found: bool, incDev: bool)
      requires Valid() && err != NO_MORE_PARTS && err != NO_MORE_DEVICES
      modifies this`part, this`numMeths, this`curMeth, this`doingGlobal
      ensures found ==> Valid() && Less(old(Here()), Here()) && old(Rest()) == Ahead()
      ensures !found ==> !doingGlobal && numMeths == w.firstGlobal && incDev == !old(doingGlobal)
      ensures !found && !incDev ==> !w.single
      ensures !found && incDev ==> old(Rest()) == Devices(w, false, curDev + 1)
      ensures !found && !incDev ==> old(Rest()) == Devices(w, false, curDev)
    {
      found, incDev := NextMeth();
      if found {
        return;
      }
      found := NextPart();
    }

    method NextPart() returns (found: bool)
      requires w.Valid() && part <= maxPart <= MAX_PART && curDev < w.Devs() && Increasing(trace)
      requires !doingGlobal && numMeths == w.firstGlobal
      modifies this`part, this`curMeth
      ensures found == (old(part) < maxPart)
      ensures found ==> Valid() && part == old(part) + 1
      ensures found ==> FromPart(w, false, curDev, old(part) + 1, maxPart) == Ahead()
      ensures !found ==> FromPart(w, false, curDev, old(part) + 1, maxPart) == Devices(w, false, curDev + 1)
    {
      curMeth := 0;
      part := part + 1;
      if part <= maxPart {
        FromPartStart(w, false, curDev, part, maxPart);
        return true;
      }
      FromPartEnd(w, false, curDev, part, maxPart);
      return false;
    }

    /** The next bootmeth; behind the last global one the bootdevs begin. */
    method NextMeth() returns (found: bool, incDev: bool)
      requires Valid() && err != NO_MORE_PARTS && err != NO_MORE_DEVICES
      modifies this`numMeths, this`curMeth, this`doingGlobal
      ensures incDev == (found || !old(doingGlobal)) && numMeths == if doingGlobal then w.meths else w.firstGlobal
      ensures found ==> Valid() && Less(old(Here()), Here()) && old(Rest()) == Ahead()
      ensures !found ==> !doingGlobal && (incDev || (!w.single && maxPart == 0))
      ensures !found && incDev ==> old(Rest()) == FromPart(w, false, curDev, part + 1, maxPart)
      ensures !found && !incDev ==> old(Rest()) == Devices(w, false, curDev)
    {
      incDev := true;
      curMeth := curMeth + 1;
      if curMeth < numMeths {
        return true, incDev;
      }
      if doingGlobal {
        numMeths := w.firstGlobal;
        doingGlobal := false;
        incDev := false;
      } else {
        FromMethEnd(w, false, curDev, part, curMeth, maxPart);
      }
      found := false;
    }

    /** The last part of iter_incr: select the next bootdev. */
    method NextDevice(incDev: bool) returns (ret: int)
      requires w.Valid() && curDev < w.Devs() && part == maxPart == curMeth == 0 && Increasing(trace)
      requires numMeths == (if doingGlobal then w.meths else w.firstGlobal) && (doingGlobal ==> !w.single)
      requires !incDev ==> !w.single && !doingGlobal
      modifies this`curDev
      ensures ret == 0 || ret == NO_MORE_DEVICES
      ensures ret == 0 ==> Valid() && curDev == old(curDev) + (if incDev then 1 else 0)
      ensures incDev ==> NextDev(w, doingGlobal, old(curDev)) == if ret == 0 then Ahead() else []
      ensures !incDev ==> Devices(w, false, old(curDev)) == if ret == 0 then Ahead() else []
    {
      if w.single {
        return NO_MORE_DEVICES;
      }
      if incDev {
        curDev := curDev + 1;
      }
      if curDev == w.devs || !w.probes(curDev) {
        return NO_MORE_DEVICES;
      }
      if !doingGlobal {
        DeviceStart(w, false, curDev);
      }
      return 0;
    }

    /** bootflow_check: try what the iterator points at. */
    method Check() returns (ret: int)
      requires Valid() && (trace == [] || Less(trace[|trace| - 1], Here()))
      modifies this`maxPart, this`trace
      ensures Valid() && trace == old(trace) + [Here()] && Here() == old(Here()) && ret == w.check(Here()).err
      ensures maxPart == w.MaxAfter(Here(), old(maxPart))
    {
      ret := w.check(Here()).err;
      if !doingGlobal && w.check(Here()).media && part < MAX_PART {
        maxPart := MAX_PART;
      }
      assert forall i :: 0 <= i < |trace| ==> Less(trace[i], Here());
      trace := trace + [Here()];
    }

    /** The scan has come this far: what was tried is what the nested loops try, and left is the rest. */
    ghost predicate Follows(left: seq<Pos>)
      reads this
    {
      Nested(w, false) == trace + left
    }

    /** The last attempt was where the iterator points; it returned err, which does not end the scan. */
    ghost predicate Tried()
      reads this
    {
      && Valid() && trace != [] && trace[|trace| - 1] == Here()
      && err == w.check(Here()).err && !w.Stops(err) && Follows(Rest())
    }

    /**
      The end of a scan: what was tried is what the loops try as coded, and what they are intended to
      try if and only if no attempt of those but the last is odd; a hit is returned, or that nothing is left.
     */
    ghost predicate Ended(ret: int)
      reads this
    {
      && trace != [] && Increasing(trace) && trace == Nested(w, false) && ret == Verdict(w, trace)
      && Agrees(w, trace, Nested(w, true))
    }

    /** One attempt: a hit, or on with the scan. */
    method Try() returns (hit: bool, ret: int)
      requires Valid() && (trace == [] || Less(trace[|trace| - 1], Here())) && Follows(Ahead())
      modifies this`maxPart, this`trace, this`err
      ensures hit ==> Ended(ret)
      ensures !hit ==> Tried() && Here() == old(Here())
    {
      ghost var before, pos, max := trace, Here(), maxPart;
      ret := Check();
      LoopsStep(w, Nested(w, false), before, pos, max);
      ScanExact(w);
      if ret == 0 {
        return true, 0;
      }
      err := ret;
      if ret != NO_MORE_PARTS && ret != -ENOSYS {
        if w.all {
          return true, ret;
        }
      }
      hit := false;
    }

    /** One turn of the loop in bootflow_scan_next. */
    method Turn() returns (done: bool, ret: int)
      requires Tried()
      modifies this
      ensures done ==> Ended(ret)
      ensures !done ==> Tried() && Less(old(Here()), Here())
    {
      ScanExact(w);
      ret := Incr();
      if ret == NO_MORE_DEVICES {
        assert trace + [] == trace;
        return true, ret;
      }
      done, ret := Try();
    }

    /** bootflow_scan_next after an attempt that was no hit. */
    method ScanNext() returns (ret: int)
      requires Tried()
      modifies this
      ensures Ended(ret)
    {
      var done := false;
      ret := 0;
      while !done
        invariant if done then Ended(ret) else Tried()
        decreases !done, doingGlobal, w.Devs() - curDev, MAX_PART + 1 - part, w.meths + 1 - curMeth
      {
        done, ret := Turn();
      }
    }

    /** bootflow_scan_bootdev, once the orders are set up. */
    method Scan() returns (ret: int)
      requires Valid() && trace == [] && Ahead() == Nested(w, false)
      modifies this
      ensures Ended(ret)
    {
      var hit;
      assert [] + Nested(w, false) == Nested(w, false);
      hit, ret := Try();
      if !hit {
        ret := ScanNext();
      }
    }
  }
}
