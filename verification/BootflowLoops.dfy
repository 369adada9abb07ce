/**
  The nested loops that the bootflow scan of U-Boot's bootflow.c stands for: as they are intended,
  and as the code performs them.  The two differ in two places, for which the exact conditions are
  proved here.
 */
module BootflowLoops {

  const NO_MORE_PARTS: int := -108
  const NO_MORE_DEVICES: int := -19
  const ENOSYS: int := 38
  const MAX_PART: nat := 30

  /** One attempt; global bootmeths are tried without a bootdev. */
  datatype Pos = Pos(global: bool, dev: nat, part: nat, meth: nat)

  /** What an attempt returns, and whether it found media, so that partitions are worth a look. */
  datatype Outcome = Outcome(err: int, media: bool)

  /**
    What is scanned: the bootdevs (or a single one), the bootmeths of which those from firstGlobal on
    are global, the flag that stops at errors too, and how every attempt and every probe turns out.
   */
  datatype World = World(devs: nat, single: bool, meths: nat, firstGlobal: nat, all: bool,
                         check: Pos -> Outcome, probes: nat -> bool)
  {
    predicate Valid() {
      && meths > 0 && firstGlobal <= meths
      && (if single then firstGlobal == meths else devs > 0 && probes(0))
    }

    function Devs(): nat { if single then 1 else devs }

    /** Bootdev d is there and can be used. */
    predicate Ready(d: nat) { d < Devs() && (single || probes(d)) }

    /** The bootmeths tried on a bootdev; the first one is tried even if all of them are global. */
    function Width(): nat { if firstGlobal == 0 then 1 else firstGlobal }

    /** A hit: the scan ends with this result. */
    predicate Stops(err: int) {
      err == 0 || (all && err != NO_MORE_PARTS && err != -ENOSYS)
    }

    /** max_part after an attempt. */
    function MaxAfter(p: Pos, max: nat): nat {
      if !p.global && check(p).media && p.part < MAX_PART then MAX_PART else max
    }
  }

  /** Global attempts first, then by bootdev, partition and bootmeth. */
  predicate Less(a: Pos, b: Pos) {
    if a.global != b.global then a.global
    else if a.dev != b.dev then a.dev < b.dev
    else if a.part != b.part then a.part < b.part
    else a.meth < b.meth
  }

  predicate Increasing(trace: seq<Pos>) {
    forall i, j :: 0 <= i < j < |trace| ==> Less(trace[i], trace[j])
  }

  // ---------------------------------------------------------------- the nested loops

  /** How a loop ends: all done, nothing more on this bootdev, or nothing more at all. */
  datatype Exit = Done | Cut | Final

  datatype Loop = Loop(trace: seq<Pos>, max: nat, exit: Exit)

  /** As intended only a hit ends the scan; the code also gives up when an attempt returns -ENODEV. */
  predicate Ends(w: World, ideal: bool, err: int) {
    w.Stops(err) || (!ideal && err == NO_MORE_DEVICES)
  }

  /** for each bootmeth from m on. */
  function Meths(w: World, ideal: bool, d: nat, p: nat, m: nat, max: nat): (r: Loop)
    decreases w.Width() - m
  {
    if m >= w.Width() then Loop([], max, Done)
    else
      var pos := Pos(false, d, p, m);
      var err, now := w.check(pos).err, w.MaxAfter(pos, max);
      if Ends(w, ideal, err) then Loop([pos], now, Final)
      else if err == NO_MORE_PARTS then Loop([pos], now, Cut)
      else
        var r := Meths(w, ideal, d, p, m + 1, now);
        Loop([pos] + r.trace, r.max, r.exit)
  }

  /** for each partition from p on: partition 0 is the whole device, more once media has been found. */
  function Parts(w: World, ideal: bool, d: nat, p: nat, max: nat): (r: Loop)
    decreases MAX_PART + 1 - p
  {
    if p > max || p > MAX_PART then Loop([], max, Done)
    else
      var r := Meths(w, ideal, d, p, 0, max);
      if r.exit != Done then r
      else
        var s := Parts(w, ideal, d, p + 1, r.max);
        Loop(r.trace + s.trace, s.max, s.exit)
  }

  /** for each bootdev from d on; one that cannot be probed ends the scan. */
  function Devices(w: World, ideal: bool, d: nat): seq<Pos>
    decreases w.Devs() - d
  {
    if !w.Ready(d) then []
    else
      var r := Parts(w, ideal, d, 0, 0);
      if r.exit == Final then r.trace else r.trace + Devices(w, ideal, d + 1)
  }

  /**
    The global bootmeths from m on, then the bootdevs from d on.  As intended d is the first bootdev.
    In the code a global bootmeth that reports "no more partitions" moves on to the next bootdev and
    starts over with all bootmeths, still in the global phase.
   */
  function Globals(w: World, ideal: bool, d: nat, m: nat): seq<Pos>
    decreases w.Devs() - d, w.meths - m
  {
    if m >= w.meths then Devices(w, ideal, d)
    else
      var pos := Pos(true, d, 0, m);
      var err := w.check(pos).err;
      if Ends(w, ideal, err) then [pos]
      else if !ideal && err == NO_MORE_PARTS then [pos] + (if w.Ready(d + 1) then Globals(w, ideal, d + 1, 0) else [])
      else [pos] + Globals(w, ideal, d, m + 1)
  }

  /** Everything that is tried, in order. */
  function Nested(w: World, ideal: bool): seq<Pos> {
    Globals(w, ideal, 0, w.firstGlobal)
  }

  /** What a scan returns that tries this: the result of the last attempt if that is a hit. */
  function Verdict(w: World, trace: seq<Pos>): int {
    if trace != [] && w.Stops(w.check(trace[|trace| - 1]).err) then w.check(trace[|trace| - 1]).err
    else NO_MORE_DEVICES
  }

  // ---------------------------------------------------------------- one bootdev

  /** How the loop over the bootmeths ends is decided by the last attempt alone. */
  predicate EndsAs(w: World, ideal: bool, trace: seq<Pos>, exit: Exit) {
    match exit
    case Done => true
    case Cut => trace != [] && w.check(trace[|trace| - 1]).err == NO_MORE_PARTS
    case Final => trace != [] && Ends(w, ideal, w.check(trace[|trace| - 1]).err)
  }

  /** On a partition the bootmeths are tried in order, all of them unless the last one tried ends the loop. */
  lemma {:induction false} MethsInOrder(w: World, ideal: bool, d: nat, p: nat, m: nat, max: nat)
    requires m <= w.Width()
    ensures var r := Meths(w, ideal, d, p, m, max);
            && |r.trace| <= w.Width() - m
            && (forall i :: 0 <= i < |r.trace| ==> r.trace[i] == Pos(false, d, p, m + i))
            && (r.exit == Done <==>
                  |r.trace| == w.Width() - m && !EndsAs(w, ideal, r.trace, Cut) && !EndsAs(w, ideal, r.trace, Final))
            && EndsAs(w, ideal, r.trace, r.exit)
    decreases w.Width() - m
  {
    if m < w.Width() {
      var pos := Pos(false, d, p, m);
      MethsInOrder(w, ideal, d, p, m + 1, w.MaxAfter(pos, max));
    }
  }

  /** All bootmeths on the partitions from p to max. */
  ghost predicate TriesAll(w: World, d: nat, p: nat, max: nat, trace: seq<Pos>) {
    forall q: nat, m: nat :: p <= q <= max && m < w.Width() ==> Pos(false, d, q, m) in trace
  }

  lemma {:induction false} PartsEnd(w: World, ideal: bool, d: nat, p: nat, max: nat)
    requires max <= MAX_PART
    ensures var r := Parts(w, ideal, d, p, max);
            max <= r.max <= MAX_PART && EndsAs(w, ideal, r.trace, r.exit)
    decreases MAX_PART + 1 - p
  {
    if p <= max {
      var r := Meths(w, ideal, d, p, 0, max);
      MethsInOrder(w, ideal, d, p, 0, max);
      MethsMax(w, ideal, d, p, 0, max);
      if r.exit == Done {
        PartsEnd(w, ideal, d, p + 1, r.max);
      }
    }
  }

  /**
    A bootdev is left before all its partitions and bootmeths have been tried only because an attempt
    said that there are no more partitions, or ended the scan.
   */
  lemma PartsAll(w: World, ideal: bool, d: nat, p: nat, max: nat)
    requires max <= MAX_PART
    ensures var r := Parts(w, ideal, d, p, max);
            EndsAs(w, ideal, r.trace, r.exit) && (r.exit == Done ==> TriesAll(w, d, p, r.max, r.trace))
  {
    PartsEnd(w, ideal, d, p, max);
    if Parts(w, ideal, d, p, max).exit == Done {
      PartsTried(w, ideal, d, p, max);
    }
  }

  lemma {:induction false} PartsTried(w: World, ideal: bool, d: nat, p: nat, max: nat)
    requires max <= MAX_PART && Parts(w, ideal, d, p, max).exit == Done
    ensures TriesAll(w, d, p, Parts(w, ideal, d, p, max).max, Parts(w, ideal, d, p, max).trace)
    decreases MAX_PART + 1 - p
  {
    if p <= max {
      MethsMax(w, ideal, d, p, 0, max);
      var r := Meths(w, ideal, d, p, 0, max);
      PartsTried(w, ideal, d, p + 1, r.max);
      MethsInOrder(w, ideal, d, p, 0, max);
      var s := Parts(w, ideal, d, p + 1, r.max);
      TriesMore(w, d, p, s.max, r.trace, s.trace);
    }
  }

  lemma TriesMore(w: World, d: nat, p: nat, max: nat, first: seq<Pos>, rest: seq<Pos>)
    requires |first| == w.Width() && (forall i :: 0 <= i < |first| ==> first[i] == Pos(false, d, p, i))
    requires TriesAll(w, d, p + 1, max, rest)
    ensures TriesAll(w, d, p, max, first + rest)
  {
    forall q: nat, m: nat | p <= q <= max && m < w.Width()
      ensures Pos(false, d, q, m) in first + rest
    {
      assert q == p ==> first[m] == Pos(false, d, q, m);
    }
  }

  lemma {:induction false} MethsMax(w: World, ideal: bool, d: nat, p: nat, m: nat, max: nat)
    requires max <= MAX_PART
    ensures max <= Meths(w, ideal, d, p, m, max).max <= MAX_PART
    decreases w.Width() - m
  {
    if m < w.Width() {
      MethsMax(w, ideal, d, p, m + 1, w.MaxAfter(Pos(false, d, p, m), max));
    }
  }

  // ---------------------------------------------------------------- what is left of the loops

  /** From partition p of bootdev d on. */
  function FromPart(w: World, ideal: bool, d: nat, p: nat, max: nat): seq<Pos> {
    var r := Parts(w, ideal, d, p, max);
    if r.exit == Final then r.trace else r.trace + Devices(w, ideal, d + 1)
  }

  /** From bootmeth m on partition p of bootdev d on. */
  function FromMeth(w: World, ideal: bool, d: nat, p: nat, m: nat, max: nat): seq<Pos> {
    var r := Meths(w, ideal, d, p, m, max);
    match r.exit
    case Done => r.trace + FromPart(w, ideal, d, p + 1, r.max)
    case Cut => r.trace + Devices(w, ideal, d + 1)
    case Final => r.trace
  }

  lemma FromPartStart(w: World, ideal: bool, d: nat, p: nat, max: nat)
    requires p <= max <= MAX_PART
    ensures FromPart(w, ideal, d, p, max) == FromMeth(w, ideal, d, p, 0, max)
  {
    var r := Meths(w, ideal, d, p, 0, max);
    if r.exit == Done {
      var s := Parts(w, ideal, d, p + 1, r.max);
      if s.exit != Final {
        var rest := Devices(w, ideal, d + 1);
        assert (r.trace + s.trace) + rest == r.trace + (s.trace + rest);
      }
    }
  }

  lemma FromPartEnd(w: World, ideal: bool, d: nat, p: nat, max: nat)
    requires p > max
    ensures FromPart(w, ideal, d, p, max) == Devices(w, ideal, d + 1)
  {
    assert [] + Devices(w, ideal, d + 1) == Devices(w, ideal, d + 1);
  }

  lemma FromMethEnd(w: World, ideal: bool, d: nat, p: nat, m: nat, max: nat)
    requires m >= w.Width()
    ensures FromMeth(w, ideal, d, p, m, max) == FromPart(w, ideal, d, p + 1, max)
  {
    assert [] + FromPart(w, ideal, d, p + 1, max) == FromPart(w, ideal, d, p + 1, max);
  }

  /** One attempt, and what is left after it. */
  lemma FromMethStep(w: World, ideal: bool, d: nat, p: nat, m: nat, max: nat)
    requires m < w.Width()
    ensures var pos := Pos(false, d, p, m);
            var err := w.check(pos).err;
            FromMeth(w, ideal, d, p, m, max) ==
              if Ends(w, ideal, err) then [pos]
              else if err == NO_MORE_PARTS then [pos] + Devices(w, ideal, d + 1)
              else [pos] + FromMeth(w, ideal, d, p, m + 1, w.MaxAfter(pos, max))
  {
    var pos := Pos(false, d, p, m);
    var r := Meths(w, ideal, d, p, m + 1, w.MaxAfter(pos, max));
    if r.exit == Done {
      var rest := FromPart(w, ideal, d, p + 1, r.max);
      assert ([pos] + r.trace) + rest == [pos] + (r.trace + rest);
    } else if r.exit == Cut {
      var rest := Devices(w, ideal, d + 1);
      assert ([pos] + r.trace) + rest == [pos] + (r.trace + rest);
    }
  }

  lemma DeviceStart(w: World, ideal: bool, d: nat)
    requires w.Ready(d)
    ensures Devices(w, ideal, d) == FromMeth(w, ideal, d, 0, 0, 0)
  {
    FromPartStart(w, ideal, d, 0, 0);
  }

  // ---------------------------------------------------------------- intended and coded

  /** An attempt after which the code does not go on as intended. */
  predicate Odd(w: World, pos: Pos) {
    var err := w.check(pos).err;
    !w.Stops(err) && (err == NO_MORE_DEVICES || (pos.global && err == NO_MORE_PARTS))
  }

  /** No attempt but the last is of this kind. */
  predicate Regular(w: World, trace: seq<Pos>) {
    forall i {:trigger Odd(w, trace[i])} :: 0 <= i < |trace| - 1 ==> !Odd(w, trace[i])
  }

  lemma RegularStep(w: World, pos: Pos, rest: seq<Pos>)
    ensures Regular(w, [pos] + rest) <==> Regular(w, rest) && (rest == [] || !Odd(w, pos))
  {
    var all := [pos] + rest;
    if Regular(w, all) {
      forall i | 0 <= i < |rest| - 1
        ensures !Odd(w, rest[i])
      {
        assert all[i + 1] == rest[i];
      }
      assert rest != [] ==> !Odd(w, all[0]);
    }
    if Regular(w, rest) && (rest == [] || !Odd(w, pos)) {
      forall i | 0 <= i < |all| - 1
        ensures !Odd(w, all[i])
      {
        assert i > 0 ==> all[i] == rest[i - 1];
      }
    }
  }

  /** The code goes on as intended from an attempt on. */
  predicate Agrees(w: World, coded: seq<Pos>, intended: seq<Pos>) {
    coded == intended <==> Regular(w, intended)
  }

  lemma Prefixed(pos: Pos, a: seq<Pos>, b: seq<Pos>)
    ensures [pos] + a == [pos] + b <==> a == b
    ensures [pos] == [pos] + b <==> b == []
  {
    assert ([pos] + a)[1..] == a && ([pos] + b)[1..] == b;
  }

  /** One more attempt in front, after which the code goes on, or gives up. */
  lemma AgreesStep(w: World, pos: Pos, coded: seq<Pos>, intended: seq<Pos>)
    requires Agrees(w, coded, intended)
    ensures !Odd(w, pos) ==> Agrees(w, [pos] + coded, [pos] + intended)
    ensures Odd(w, pos) ==> Agrees(w, [pos], [pos] + intended)
  {
    RegularStep(w, pos, intended);
    Prefixed(pos, coded, intended);
  }

  lemma {:induction false} MethsAgree(w: World, d: nat, p: nat, m: nat, max: nat)
    requires w.Ready(d) && m < w.Width() && p <= max <= MAX_PART
    ensures Agrees(w, FromMeth(w, false, d, p, m, max), FromMeth(w, true, d, p, m, max))
    decreases w.Devs() - d, 1, MAX_PART + 1 - p, w.Width() - m, 0
  {
    var pos := Pos(false, d, p, m);
    var now := w.MaxAfter(pos, max);
    FromMethStep(w, false, d, p, m, max);
    FromMethStep(w, true, d, p, m, max);
    if w.check(pos).err == NO_MORE_PARTS {
      DevicesAgree(w, d + 1);
      AgreesStep(w, pos, Devices(w, false, d + 1), Devices(w, true, d + 1));
    } else if !w.Stops(w.check(pos).err) {
      AfterAgree(w, d, p, m + 1, now);
      AgreesStep(w, pos, FromMeth(w, false, d, p, m + 1, now), FromMeth(w, true, d, p, m + 1, now));
    }
  }

  /** The same where the bootmeths may be used up. */
  lemma {:induction false} AfterAgree(w: World, d: nat, p: nat, m: nat, max: nat)
    requires w.Ready(d) && m <= w.Width() && p <= max <= MAX_PART
    ensures Agrees(w, FromMeth(w, false, d, p, m, max), FromMeth(w, true, d, p, m, max))
    decreases w.Devs() - d, 1, MAX_PART + 1 - p, w.Width() - m, 1
  {
    if m < w.Width() {
      MethsAgree(w, d, p, m, max);
    } else {
      PartsAgree(w, d, p + 1, max);
      UsedUp(w, d, p, m, max);
    }
  }

  lemma UsedUp(w: World, d: nat, p: nat, m: nat, max: nat)
    requires m >= w.Width() && Agrees(w, FromPart(w, false, d, p + 1, max), FromPart(w, true, d, p + 1, max))
    ensures Agrees(w, FromMeth(w, false, d, p, m, max), FromMeth(w, true, d, p, m, max))
  {
    FromMethEnd(w, false, d, p, m, max);
    FromMethEnd(w, true, d, p, m, max);
  }

  /** The same where the partitions may be used up. */
  lemma {:induction false} PartsAgree(w: World, d: nat, p: nat, max: nat)
    requires w.Ready(d) && max <= MAX_PART && p <= MAX_PART + 1
    ensures Agrees(w, FromPart(w, false, d, p, max), FromPart(w, true, d, p, max))
    decreases w.Devs() - d, 1, MAX_PART + 1 - p, w.Width() + 1
  {
    if p <= max {
      FromPartStart(w, false, d, p, max);
      FromPartStart(w, true, d, p, max);
      MethsAgree(w, d, p, 0, max);
    } else {
      FromPartEnd(w, false, d, p, max);
      FromPartEnd(w, true, d, p, max);
      DevicesAgree(w, d + 1);
    }
  }

  lemma {:induction false} DevicesAgree(w: World, d: nat)
    ensures Agrees(w, Devices(w, false, d), Devices(w, true, d))
    decreases w.Devs() - d, 2
  {
    if w.Ready(d) {
      DeviceStart(w, false, d);
      DeviceStart(w, true, d);
      MethsAgree(w, d, 0, 0, 0);
    }
  }

  lemma {:induction false} GlobalsAgree(w: World, m: nat)
    requires w.Valid() && w.firstGlobal <= m <= w.meths
    ensures Agrees(w, Globals(w, false, 0, m), Globals(w, true, 0, m))
    decreases w.meths - m
  {
    if m == w.meths {
      DevicesAgree(w, 0);
    } else {
      var pos := Pos(true, 0, 0, m);
      var rest := Globals(w, true, 0, m + 1);
      GlobalsAgree(w, m + 1);
      AgreesStep(w, pos, Globals(w, false, 0, m + 1), rest);
      if Odd(w, pos) {
        SomethingLeft(w, m + 1);
        var after := if w.Ready(1) then Globals(w, false, 1, 0) else [];
        assert after != [] ==> after[0].dev == 1;
        Prefixed(pos, after, rest);
      }
    }
  }

  /** Behind a global attempt there is always something left to try, and it comes before bootdev 1. */
  lemma SomethingLeft(w: World, m: nat)
    requires w.Valid() && !w.single && m <= w.meths
    ensures var rest := Globals(w, true, 0, m); rest != [] && rest[0].dev == 0
  {
    if m == w.meths {
      DeviceStart(w, true, 0);
      FromMethStep(w, true, 0, 0, 0, 0);
    }
  }

  /** The code tries what is intended if and only if no attempt but the last is odd. */
  lemma ScanExact(w: World)
    requires w.Valid()
    ensures Agrees(w, Nested(w, false), Nested(w, true))
  {
    GlobalsAgree(w, w.firstGlobal);
  }

  // ---------------------------------------------------------------- the two failures

  function NoDeviceCheck(p: Pos): Outcome {
    Outcome(if p.dev == 0 then NO_MORE_DEVICES else 0, false)
  }

  /** Two bootdevs and one bootmeth: on the first bootdev it returns -ENODEV, on the second it finds a bootflow. */
  function NoDeviceWorld(): World {
    World(2, false, 1, 1, false, NoDeviceCheck, _ => true)
  }

  /** The second bootdev is never tried. */
  lemma NoDeviceFails()
    ensures var w := NoDeviceWorld();
            && w.Valid() && Nested(w, true) == [Pos(false, 0, 0, 0), Pos(false, 1, 0, 0)]
            && Nested(w, false) == [Pos(false, 0, 0, 0)]
            && Verdict(w, Nested(w, true)) == 0 && Verdict(w, Nested(w, false)) == NO_MORE_DEVICES
  {
    var w := NoDeviceWorld();
    DeviceStart(w, true, 0);
    DeviceStart(w, false, 0);
    FromMethStep(w, true, 0, 0, 0, 0);
    FromMethStep(w, false, 0, 0, 0, 0);
    FromMethEnd(w, true, 0, 0, 1, 0);
    FromPartEnd(w, true, 0, 1, 0);
    DeviceStart(w, true, 1);
    FromMethStep(w, true, 1, 0, 0, 0);
  }

  function GlobalCutCheck(p: Pos): Outcome {
    Outcome(if p.global then NO_MORE_PARTS else 0, false)
  }

  /** One bootdev that holds a bootflow, and a global bootmeth that reports "no more partitions". */
  function GlobalCutWorld(): World {
    World(1, false, 2, 1, false, GlobalCutCheck, _ => true)
  }

  /** The bootdev is never tried. */
  lemma GlobalCutFails()
    ensures var w := GlobalCutWorld();
            && w.Valid() && Nested(w, true) == [Pos(true, 0, 0, 1), Pos(false, 0, 0, 0)]
            && Nested(w, false) == [Pos(true, 0, 0, 1)]
            && Verdict(w, Nested(w, true)) == 0 && Verdict(w, Nested(w, false)) == NO_MORE_DEVICES
  {
    var w := GlobalCutWorld();
    DeviceStart(w, true, 0);
    FromMethStep(w, true, 0, 0, 0, 0);
    assert Globals(w, true, 0, 2) == [Pos(false, 0, 0, 0)];
    assert Globals(w, true, 0, 1) == [Pos(true, 0, 0, 1)] + Globals(w, true, 0, 2);
    assert Globals(w, false, 0, 1) == [Pos(true, 0, 0, 1)];
  }
}
