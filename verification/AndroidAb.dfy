/**
  The A/B slot selection of U-Boot's android_ab.c: one call of ab_select_slot against a simple
  specification, and what any number of calls return.
 */
module AndroidAb {

  type Byte = b: int | 0 <= b < 256

  /** struct slot_metadata with its bit fields. */
  type Priority = n: nat | n < 16
  type Tries = n: nat | n < 8
  datatype Slot = Slot(priority: Priority, tries: Tries, successful: bool, corrupted: bool, reserved: nat)

  const MAX_SLOTS: nat := 4
  const NUM_SLOTS: nat := 2
  const MAGIC: nat := 0x42414342
  const VERSION: nat := 1
  const EINVAL: int := 22
  const ENODATA: int := 61

  type Slots = s: seq<Slot> | |s| == MAX_SLOTS witness seq(MAX_SLOTS, _ => Slot(0, 0, false, false, 0))

  /** struct bootloader_control up to its checksum. */
  datatype Fields = Fields(suffix: seq<Byte>, magic: nat, version: nat, slotCount: nat, recoveryTries: nat,
                           reserved: seq<Byte>, slots: Slots, reserved1: seq<Byte>)

  datatype Control = Control(fields: Fields, crc: nat)

  // ---------------------------------------------------------------- which slot

  predicate Bootable(s: Slot) {
    !s.corrupted && s.tries > 0
  }

  /** The order of preference as one number; Compare says which order that is. */
  function Rank(s: Slot): nat {
    16 * s.priority + (if s.successful then 8 else 0) + s.tries
  }

  function Flag(b: bool): int {
    if b then 1 else 0
  }

  /** ab_compare_slots: negative if a is better, by priority, then success, then tries. */
  function Compare(a: Slot, b: Slot): (r: int)
    ensures r < 0 <==>
              || a.priority > b.priority
              || (a.priority == b.priority && a.successful && !b.successful)
              || (a.priority == b.priority && a.successful == b.successful && a.tries > b.tries)
    ensures r == 0 <==> a.priority == b.priority && a.successful == b.successful && a.tries == b.tries
    ensures r < 0 <==> Rank(a) > Rank(b)
    ensures r == 0 <==> Rank(a) == Rank(b)
  {
    if a.priority != b.priority then b.priority - a.priority
    else if a.successful != b.successful then Flag(b.successful) - Flag(a.successful)
    else b.tries - a.tries
  }

  predicate AnyBootable(slots: Slots, n: nat)
    requires n <= MAX_SLOTS
  {
    exists i :: 0 <= i < n && Bootable(slots[i])
  }

  /** Slot k is the first of the best bootable slots among the first n; -1 stands for none. */
  predicate Chosen(slots: Slots, n: nat, k: int)
    requires n <= MAX_SLOTS
  {
    if k == -1 then !AnyBootable(slots, n)
    else
      && 0 <= k < n && Bootable(slots[k])
      && (forall i :: 0 <= i < n && Bootable(slots[i]) ==> Rank(slots[i]) <= Rank(slots[k]))
      && (forall i :: 0 <= i < k && Bootable(slots[i]) ==> Rank(slots[i]) < Rank(slots[k]))
  }

  lemma ChosenUnique(slots: Slots, n: nat, k: int, l: int)
    requires n <= MAX_SLOTS && Chosen(slots, n, k) && Chosen(slots, n, l)
    ensures k == l
  {
  }

  /** The choice among the first n slots. */
  function Best(slots: Slots, n: nat): (k: int)
    requires n <= MAX_SLOTS
    ensures Chosen(slots, n, k)
  {
    if n == 0 then -1
    else
      var k := Best(slots, n - 1);
      if Bootable(slots[n - 1]) && (k < 0 || Rank(slots[n - 1]) > Rank(slots[k])) then n - 1 else k
  }

  // ---------------------------------------------------------------- one call

  /** ab_control_default: the slots beyond the first two keep what they held. */
  function Default(f: Fields): Fields {
    var s := Slot(15, 7, false, false, 0);
    f.(suffix := [97, 0, 0, 0], magic := MAGIC, version := VERSION, slotCount := NUM_SLOTS,
       reserved := [0, 0], slots := [s, s] + f.slots[NUM_SLOTS..], reserved1 := [0, 0, 0, 0, 0, 0, 0, 0])
  }

  predicate Known(f: Fields) {
    f.magic == MAGIC && f.version <= VERSION
  }

  function Capped(f: Fields): Fields {
    if f.slotCount > MAX_SLOTS then f.(slotCount := MAX_SLOTS) else f
  }

  /** What the selection of slot k leaves: one try less unless the slot has booted before. */
  function Taken(f: Fields, k: nat): Fields
    requires k < MAX_SLOTS && f.slots[k].tries > 0
  {
    var s := f.slots[k];
    f.(slots := if s.successful then f.slots else f.slots[k := s.(tries := s.tries - 1)], suffix := [97 + k, 0, 0, 0])
  }

  /** The fields a call works on, and leaves behind. */
  function Loaded(c: Control, sum: Fields -> nat): Fields {
    if c.crc == sum(c.fields) then c.fields else Default(c.fields)
  }

  function Result(f: Fields): int {
    if !Known(f) then -ENODATA
    else
      var g := Capped(f);
      if Best(g.slots, g.slotCount) < 0 then -EINVAL else Best(g.slots, g.slotCount)
  }

  function After(f: Fields): Fields
    requires Known(f)
  {
    var g := Capped(f);
    if Best(g.slots, g.slotCount) < 0 then g else Taken(g, Best(g.slots, g.slotCount))
  }

  /** The stored block after one call: a block nobody understands is left alone. */
  function Call(c: Control, sum: Fields -> nat): Control {
    var f := Loaded(c, sum);
    if Known(f) then Control(After(f), sum(After(f))) else c
  }

  /** The slots a call looks at. */
  function InUse(f: Fields): nat {
    if f.slotCount > 4 then 4 else f.slotCount
  }

  /**
    What a call returns, in terms of the fields it works on: the slot that is better than every other
    one with a try left and not corrupted, or comes before it if both are equally good.
   */
  lemma ReturnsBetter(f: Fields)
    ensures Result(f) == -61 <==> f.magic != 0x42414342 || f.version > 1
    ensures Result(f) == -22 <==>
              && f.magic == 0x42414342 && f.version <= 1
              && forall i :: 0 <= i < InUse(f) ==> f.slots[i].corrupted || f.slots[i].tries == 0
    ensures Result(f) >= 0 || Result(f) == -61 || Result(f) == -22
    ensures Result(f) >= 0 ==>
              && Result(f) < InUse(f) && !f.slots[Result(f)].corrupted && f.slots[Result(f)].tries > 0
              && forall i :: 0 <= i < InUse(f) && i != Result(f) && !f.slots[i].corrupted && f.slots[i].tries > 0 ==>
                   && Compare(f.slots[Result(f)], f.slots[i]) <= 0
                   && (i < Result(f) ==> Compare(f.slots[Result(f)], f.slots[i]) < 0)
  {
    var k := Best(f.slots, InUse(f));
    assert Chosen(f.slots, InUse(f), k);
    assert k == -1 ==> forall i :: 0 <= i < InUse(f) ==> !Bootable(f.slots[i]);
  }

  /** What a call that returns a slot leaves behind: the letter of the slot, and one try less if not yet successful. */
  lemma LeavesBehind(c: Control, sum: Fields -> nat)
    ensures var f, d := Loaded(c, sum), Call(c, sum);
            && (Result(f) == -61 ==> d == c)
            && (Result(f) != -61 ==>
                  && d.crc == sum(d.fields) && d.fields.slotCount == InUse(f)
                  && d.fields.magic == f.magic && d.fields.version == f.version
                  && d.fields.recoveryTries == f.recoveryTries
                  && d.fields.reserved == f.reserved && d.fields.reserved1 == f.reserved1)
            && (Result(f) == -22 ==> d.fields.slots == f.slots && d.fields.suffix == f.suffix)
            && (Result(f) >= 0 ==>
                  && d.fields.suffix == [97 + Result(f), 0, 0, 0]
                  && (forall i :: 0 <= i < 4 && i != Result(f) ==> d.fields.slots[i] == f.slots[i])
                  && var s := f.slots[Result(f)];
                     d.fields.slots[Result(f)] == s.(tries := if s.successful then s.tries else s.tries - 1))
  {
  }

  /** A block with a wrong checksum is initialised: slots a and b with priority 15 and 7 tries, and a is taken. */
  lemma Reinitialised(c: Control, sum: Fields -> nat)
    requires c.crc != sum(c.fields)
    ensures Result(Loaded(c, sum)) == 0
    ensures var f := Call(c, sum).fields;
            && f.suffix == [97, 0, 0, 0] && f.magic == 0x42414342 && f.version == 1 && f.slotCount == 2
            && f.slots[0] == Slot(15, 6, false, false, 0) && f.slots[1] == Slot(15, 7, false, false, 0)
            && f.slots[2] == c.fields.slots[2] && f.slots[3] == c.fields.slots[3]
            && f.recoveryTries == c.fields.recoveryTries
            && f.reserved == [0, 0] && f.reserved1 == [0, 0, 0, 0, 0, 0, 0, 0]
  {
    var f := Default(c.fields);
    assert Bootable(f.slots[0]) && Bootable(f.slots[1]);
    assert Best(f.slots, 1) == 0 by {
      assert Best(f.slots, 0) == -1;
    }
    assert Best(f.slots, 2) == 0;
  }

  /** The misc partition; sum is the checksum of the fields before it. */
  class Storage {
    var control: Control
    const sum: Fields -> nat

    constructor (control: Control, sum: Fields -> nat)
      ensures this.control == control && this.sum == sum
    {
      this.control, this.sum := control, sum;
    }

    /** The loop of ab_select_slot. */
    method Scan(slots: Slots, n: nat) returns (slot: int)
      requires n <= MAX_SLOTS
      ensures slot == Best(slots, n)
    {
      slot := -1;
      var i := 0;
      while i < n
        invariant 0 <= i <= n && slot == Best(slots, i)
      {
        if !(slots[i].corrupted || slots[i].tries == 0) {
          if slot < 0 || Compare(slots[i], slots[slot]) < 0 {
            slot := i;
          }
        }
        i := i + 1;
      }
    }

    /** ab_select_slot, and exactly when its result is the one its comment describes. */
    method SelectSlot() returns (r: int)
      modifies this`control
      ensures r == Result(Loaded(old(control), sum))
      ensures control == Call(old(control), sum)
      ensures old(control).crc == sum(old(control).fields) ==> Loaded(old(control), sum) == old(control).fields
      ensures var f := Loaded(old(control), sum);
              r >= 0 ==>
                && r < InUse(f) && !f.slots[r].corrupted && f.slots[r].tries > 0
                && forall i :: 0 <= i < InUse(f) && i != r && !f.slots[i].corrupted && f.slots[i].tries > 0 ==>
                     Compare(f.slots[r], f.slots[i]) <= 0 && (i < r ==> Compare(f.slots[r], f.slots[i]) < 0)
      ensures var f := Loaded(old(control), sum);
              Known(f) ==> (r == DocumentedResult(f) <==> SpentBeaten(f.slots, Capped(f).slotCount))
    {
      ghost var f := Loaded(control, sum);
      if Known(f) {
        DocumentedExact(f);
      }
      ReturnsBetter(f);
      r := Select();
    }

    /** The body of ab_select_slot, with storage that can be read and written. */
    method Select() returns (r: int)
      modifies this`control
      ensures r == Result(Loaded(old(control), sum))
      ensures control == Call(old(control), sum)
    {
      var abc := control;
      var storeNeeded := false;
      if abc.crc != sum(abc.fields) {
        abc := abc.(fields := Default(abc.fields), crc := sum(Default(abc.fields)));
        storeNeeded := true;
      }
      if abc.fields.magic != MAGIC {
        return -ENODATA;
      }
      if abc.fields.version > VERSION {
        return -ENODATA;
      }
      if abc.fields.slotCount > MAX_SLOTS {
        abc := abc.(fields := abc.fields.(slotCount := MAX_SLOTS));
        storeNeeded := true;
      }
      var slot := Scan(abc.fields.slots, abc.fields.slotCount);
      if slot >= 0 && !abc.fields.slots[slot].successful {
        var s := abc.fields.slots[slot];
        abc := abc.(fields := abc.fields.(slots := abc.fields.slots[slot := s.(tries := s.tries - 1)]));
        storeNeeded := true;
      }
      if slot >= 0 {
        var suffix := [97 + slot, 0, 0, 0];
        if abc.fields.suffix != suffix {
          abc := abc.(fields := abc.fields.(suffix := suffix));
          storeNeeded := true;
        }
      }
      if storeNeeded {
        abc := abc.(crc := sum(abc.fields));
        control := abc;
      }
      if slot < 0 {
        return -EINVAL;
      }
      return slot;
    }
  }

  // ---------------------------------------------------------------- any number of calls

  /** The stored block after n calls with nobody else writing. */
  function Calls(c: Control, sum: Fields -> nat, n: nat): Control {
    if n == 0 then c else Call(Calls(c, sum, n - 1), sum)
  }

  /** What call number n returns. */
  function Returned(c: Control, sum: Fields -> nat, n: nat): int {
    Result(Loaded(Calls(c, sum, n), sum))
  }

  /** Some slot in use is bootable and has booted before. */
  predicate Settled(f: Fields) {
    exists i :: 0 <= i < MAX_SLOTS && i < f.slotCount && Bootable(f.slots[i]) && f.slots[i].successful
  }

  /** The tries left in the first n slots that are neither corrupted nor known to boot. */
  function Budget(slots: Slots, n: nat): nat
    requires n <= MAX_SLOTS
  {
    if n == 0 then 0
    else Budget(slots, n - 1) + (if slots[n - 1].corrupted || slots[n - 1].successful then 0 else slots[n - 1].tries)
  }

  lemma {:induction false} BudgetLeft(slots: Slots, n: nat)
    requires n <= MAX_SLOTS
    ensures Budget(slots, n) > 0 <==> exists i :: 0 <= i < n && Bootable(slots[i]) && !slots[i].successful
  {
    if n > 0 {
      BudgetLeft(slots, n - 1);
    }
  }

  lemma {:induction false} BudgetTaken(slots: Slots, n: nat, k: nat)
    requires n <= MAX_SLOTS && k < MAX_SLOTS && Bootable(slots[k]) && !slots[k].successful
    ensures var less := slots[k := slots[k].(tries := slots[k].tries - 1)];
            Budget(less, n) == Budget(slots, n) - (if k < n then 1 else 0)
  {
    if n > 0 {
      BudgetTaken(slots, n - 1, k);
    }
  }

  /** A call keeps everything but the suffix and the tries, and takes a try only from a slot yet to be proven. */
  lemma AfterKeeps(f: Fields)
    requires Known(f)
    ensures var g := After(f);
            && Known(g) && Capped(g) == g && g.slotCount == Capped(f).slotCount
            && forall i :: 0 <= i < MAX_SLOTS ==>
                 && g.slots[i].(tries := f.slots[i].tries) == f.slots[i] && g.slots[i].tries <= f.slots[i].tries
                 && (f.slots[i].successful ==> g.slots[i] == f.slots[i])
  {
  }

  /** Without a slot that is known to boot, a call takes exactly one try, or there is none left. */
  lemma AfterBudget(f: Fields)
    requires Known(f) && !Settled(f)
    ensures var n, b := Capped(f).slotCount, Budget(f.slots, Capped(f).slotCount);
            && !Settled(After(f)) && (Result(f) >= 0 <==> b > 0)
            && Budget(After(f).slots, n) == if b > 0 then b - 1 else 0
  {
    var g := Capped(f);
    BudgetLeft(f.slots, g.slotCount);
    AfterKeeps(f);
    var k := Best(g.slots, g.slotCount);
    if k >= 0 {
      BudgetTaken(f.slots, g.slotCount, k);
    }
  }

  /** A slot that is known to boot stays so, and then every call returns a slot. */
  lemma AfterSettled(f: Fields)
    requires Known(f) && Settled(f)
    ensures Settled(After(f)) && Result(f) >= 0
  {
    AfterKeeps(f);
  }

  /** From the first call on the stored checksum is right, and the next call works on what was left. */
  lemma NextLoaded(c: Control, sum: Fields -> nat)
    requires Known(Loaded(c, sum))
    ensures Call(c, sum).crc == sum(Call(c, sum).fields) && Loaded(Call(c, sum), sum) == After(Loaded(c, sum))
  {
  }

  /** The fields before call number n. */
  function Before(c: Control, sum: Fields -> nat, n: nat): Fields {
    Loaded(Calls(c, sum, n), sum)
  }

  lemma {:induction false} Run(c: Control, sum: Fields -> nat, n: nat)
    requires Known(Loaded(c, sum))
    ensures var f, g := Loaded(c, sum), Before(c, sum, n);
            && Known(g) && Capped(g).slotCount == Capped(f).slotCount && (Settled(g) <==> Settled(f))
            && (!Settled(f) ==>
                  var b := Budget(f.slots, Capped(f).slotCount);
                  Budget(g.slots, Capped(g).slotCount) == if n <= b then b - n else 0)
  {
    if n > 0 {
      Run(c, sum, n - 1);
      var g := Before(c, sum, n - 1);
      NextLoaded(Calls(c, sum, n - 1), sum);
      AfterKeeps(g);
      if Settled(g) {
        AfterSettled(g);
      } else {
        AfterBudget(g);
      }
    }
  }

  /**
    Over any number of calls: a slot comes back for ever if one is known to boot, and otherwise in
    exactly as many calls as there are tries in uncorrupted slots, -EINVAL in every later one.
   */
  lemma ExactlyTheTries(c: Control, sum: Fields -> nat, n: nat)
    requires Known(Loaded(c, sum))
    ensures var f := Capped(Loaded(c, sum));
            if Settled(f) || n < Budget(f.slots, f.slotCount)
            then 0 <= Returned(c, sum, n) < f.slotCount else Returned(c, sum, n) == -EINVAL
  {
    Run(c, sum, n);
    var g := Before(c, sum, n);
    if Settled(g) {
      AfterSettled(g);
    } else {
      AfterBudget(g);
    }
  }

  /** Whatever a call returns is the first best slot, with a try left and not corrupted. */
  lemma NeverUnbootable(c: Control, sum: Fields -> nat, n: nat)
    requires Known(Loaded(c, sum)) && Returned(c, sum, n) >= 0
    ensures var g := Capped(Before(c, sum, n));
            && Chosen(g.slots, g.slotCount, Returned(c, sum, n)) && Bootable(g.slots[Returned(c, sum, n)])
  {
    Run(c, sum, n);
  }

  /** After any call the checksum is valid; a block nobody understands is left alone for ever. */
  lemma {:induction false} ChecksumStays(c: Control, sum: Fields -> nat, n: nat)
    ensures Known(Loaded(c, sum)) && n > 0 ==> Calls(c, sum, n).crc == sum(Calls(c, sum, n).fields)
    ensures !Known(Loaded(c, sum)) ==> Calls(c, sum, n) == c && Returned(c, sum, n) == -ENODATA
  {
    if n > 0 {
      ChecksumStays(c, sum, n - 1);
      if Known(Loaded(c, sum)) {
        Run(c, sum, n - 1);
      }
    }
  }

  // ---------------------------------------------------------------- the rule of the comment

  /** The rule of the comment in the source: tries left, or booted before. */
  predicate Documented(s: Slot) {
    !s.corrupted && (s.tries > 0 || s.successful)
  }

  /** Slot k is the first of the best slots by that rule; -1 stands for none. */
  predicate DocumentedChoice(slots: Slots, n: nat, k: int)
    requires n <= MAX_SLOTS
  {
    if k == -1 then forall i :: 0 <= i < n ==> !Documented(slots[i])
    else
      && 0 <= k < n && Documented(slots[k])
      && (forall i :: 0 <= i < n && Documented(slots[i]) ==> Rank(slots[i]) <= Rank(slots[k]))
      && (forall i :: 0 <= i < k && Documented(slots[i]) ==> Rank(slots[i]) < Rank(slots[k]))
  }

  function DocumentedBest(slots: Slots, n: nat): (k: int)
    requires n <= MAX_SLOTS
    ensures DocumentedChoice(slots, n, k)
  {
    if n == 0 then -1
    else
      var k := DocumentedBest(slots, n - 1);
      if Documented(slots[n - 1]) && (k < 0 || Rank(slots[n - 1]) > Rank(slots[k])) then n - 1 else k
  }

  /** What a call would return by the comment. */
  function DocumentedResult(f: Fields): int {
    if !Known(f) then -ENODATA
    else
      var g := Capped(f);
      if DocumentedBest(g.slots, g.slotCount) < 0 then -EINVAL else DocumentedBest(g.slots, g.slotCount)
  }

  /** An intact slot that has booted before and has used up its tries. */
  predicate Spent(s: Slot) {
    !s.corrupted && s.successful && s.tries == 0
  }

  /** Some bootable slot is preferred to slot i. */
  predicate Beaten(slots: Slots, n: nat, i: nat)
    requires n <= MAX_SLOTS && i < n
  {
    exists k :: 0 <= k < n && Bootable(slots[k]) &&
      (Rank(slots[k]) > Rank(slots[i]) || (Rank(slots[k]) == Rank(slots[i]) && k < i))
  }

  predicate SpentBeaten(slots: Slots, n: nat)
    requires n <= MAX_SLOTS
  {
    forall i :: 0 <= i < n && Spent(slots[i]) ==> Beaten(slots, n, i)
  }

  /** The code chooses by its comment if and only if every spent slot loses against a bootable one. */
  lemma DocumentedBestExact(slots: Slots, n: nat)
    requires n <= MAX_SLOTS
    ensures DocumentedBest(slots, n) == Best(slots, n) <==> SpentBeaten(slots, n)
  {
    var d, b := DocumentedBest(slots, n), Best(slots, n);
    if d == b {
      forall i | 0 <= i < n && Spent(slots[i])
        ensures Beaten(slots, n, i)
      {
        assert Documented(slots[i]) && Bootable(slots[b]);
      }
    } else {
      assert d >= 0 && Spent(slots[d]);
      assert !Beaten(slots, n, d);
    }
  }

  /** What a call returns is what its comment says if and only if every spent slot in use is beaten. */
  lemma DocumentedExact(f: Fields)
    requires Known(f)
    ensures Result(f) == DocumentedResult(f) <==> SpentBeaten(f.slots, Capped(f).slotCount)
  {
    var g := Capped(f);
    DocumentedBestExact(g.slots, g.slotCount);
  }

  /** The same for call number n. */
  lemma DocumentedCall(c: Control, sum: Fields -> nat, n: nat)
    requires Known(Loaded(c, sum))
    ensures var f := Before(c, sum, n);
            Returned(c, sum, n) == DocumentedResult(f) <==> SpentBeaten(f.slots, Capped(f).slotCount)
  {
    Run(c, sum, n);
    DocumentedExact(Before(c, sum, n));
  }

  /** A system that only holds a slot that has always booted, with no try left, does not boot. */
  lemma DocumentedFails(f: Fields)
    requires Known(f) && f.slotCount == 1 && f.slots[0] == Slot(15, 0, true, false, 0)
    ensures DocumentedResult(f) == 0 && Result(f) == -EINVAL
  {
    assert Documented(f.slots[0]) && !Bootable(f.slots[0]);
  }
}
