/**
  The tables hdimage_insert_mbr and hdimage_insert_gpt of genimage's image-hd.c fill in memory: which
  entries they hold, and that filling them stays inside their arrays.
 */
module HdTables {
  import opened Common
  import opened HdPlaces
  import opened HdLayout

  datatype Slot = Slot(kind: nat, start: nat, sectors: nat)

  const GPT_ENTRIES: nat := 128
  const TYPE_PROTECTIVE: nat := 0xEE

  function SlotOf(p: Part): Slot {
    Slot(p.e.partitionType, p.offset / 512, p.size / 512)
  }

  /** The entry takes a slot of the MBR. */
  predicate InMbr(c: Config, p: Part) {
    p.inTable && !p.logical && (c.tableType == HybridTable ==> p.e.partitionType != 0)
  }

  /** The slots of all entries that take one, in order. */
  function MbrSlots(c: Config, ps: seq<Part>): seq<Slot> {
    if ps == [] then []
    else
      var p := ps[|ps| - 1];
      MbrSlots(c, ps[..|ps| - 1]) + if InMbr(c, p) then [SlotOf(p)] else []
  }

  function GptSlots(ps: seq<Part>): seq<Slot> {
    if ps == [] then []
    else
      var p := ps[|ps| - 1];
      GptSlots(ps[..|ps| - 1]) + if p.inTable then [SlotOf(p)] else []
  }

  /** The last slot of a hybrid MBR protects the GPT. */
  function Protective(gptLocation: nat): Slot {
    Slot(TYPE_PROTECTIVE, 1, gptLocation / 512 + GPT_SECTORS - 2)
  }

  lemma {:induction false} MbrSlotCount(c: Config, ps: seq<Part>)
    ensures c.tableType == MbrTable ==> |MbrSlots(c, ps)| == Count(ps, true)
    ensures c.tableType == HybridTable && (forall i :: 0 <= i < |ps| ==> !ps[i].logical) ==>
              |MbrSlots(c, ps)| == CountHybrid(ps)
  {
    if ps != [] {
      MbrSlotCount(c, ps[..|ps| - 1]);
    }
  }

  lemma {:induction false} MbrSlotsPrefix(c: Config, ps: seq<Part>, i: nat)
    requires i < |ps|
    ensures MbrSlots(c, ps[..i + 1]) == MbrSlots(c, ps[..i]) + if InMbr(c, ps[i]) then [SlotOf(ps[i])] else []
    ensures |MbrSlots(c, ps[..i + 1])| <= |MbrSlots(c, ps)|
    decreases |ps|
  {
    assert ps[..i + 1][..i] == ps[..i];
    if i + 1 < |ps| {
      var front := ps[..|ps| - 1];
      MbrSlotsPrefix(c, front, i);
      assert front[..i + 1] == ps[..i + 1];
    } else {
      assert ps[..i + 1] == ps;
    }
  }

  /** The MBR of every layout that setup accepts has room for its entries, and the protective one. */
  lemma MbrFits(hd: HdImage)
    requires hd.Laid() && HasMbr(hd.cfg.tableType)
    ensures |MbrSlots(hd.cfg, hd.parts)| + (if hd.cfg.tableType == HybridTable then 1 else 0) <= 4
  {
    MbrSlotCount(hd.cfg, hd.parts);
  }

  /** hdimage_insert_mbr fills mbr.part_entry, and stays inside it. */
  method FillMbr(hd: HdImage) returns (entry: array<Slot>, used: nat)
    requires hd.Laid() && HasMbr(hd.cfg.tableType)
    ensures fresh(entry) && entry.Length == 4 && used <= 4
    ensures entry[..used] == MbrSlots(hd.cfg, hd.parts) +
              if hd.cfg.tableType == HybridTable then [Protective(hd.GptLocation())] else []
  {
    MbrFits(hd);
    entry, used := FillEntries(hd.cfg, hd.parts);
    if hd.cfg.tableType == HybridTable {
      entry[used] := Protective(hd.GptLocation());
      used := used + 1;
    }
  }

  /** Its loop over the partitions. */
  method FillEntries(c: Config, ps: seq<Part>) returns (entry: array<Slot>, used: nat)
    requires |MbrSlots(c, ps)| <= 4
    ensures fresh(entry) && entry.Length == 4 && used == |MbrSlots(c, ps)| && entry[..used] == MbrSlots(c, ps)
  {
    entry := new Slot[4](_ => Slot(0, 0, 0));
    var i := 0;
    used := 0;
    while i < |ps|
      invariant 0 <= i <= |ps| && used == |MbrSlots(c, ps[..i])| <= |MbrSlots(c, ps)|
      invariant fresh(entry) && entry[..used] == MbrSlots(c, ps[..i])
    {
      MbrSlotsPrefix(c, ps, i);
      if InMbr(c, ps[i]) {
        entry[used] := SlotOf(ps[i]);
        used := used + 1;
      }
      i := i + 1;
    }
    assert ps[..i] == ps;
  }

  lemma {:induction false} GptSlotCount(ps: seq<Part>)
    ensures |GptSlots(ps)| == Count(ps, false)
  {
    if ps != [] {
      GptSlotCount(ps[..|ps| - 1]);
    }
  }

  lemma GptSlotsPrefix(ps: seq<Part>, i: nat)
    requires i < |ps|
    ensures GptSlots(ps[..i + 1]) == GptSlots(ps[..i]) + if ps[i].inTable then [SlotOf(ps[i])] else []
  {
    assert ps[..i + 1][..i] == ps[..i];
  }

  /**
    The loop of hdimage_insert_gpt over its table of 128 entries.  The source has no test for the number
    of entries: the loop stays inside the table if and only if there are at most 128, and is stopped here
    where it would leave it.
   */
  method FillGpt(hd: HdImage) returns (table: array<Slot>, used: nat, inside: bool)
    ensures fresh(table) && table.Length == GPT_ENTRIES
    ensures inside <==> Count(hd.parts, false) <= GPT_ENTRIES
    ensures inside ==> used <= GPT_ENTRIES && table[..used] == GptSlots(hd.parts)
  {
    table := new Slot[GPT_ENTRIES](_ => Slot(0, 0, 0));
    var i := 0;
    used, inside := 0, true;
    while i < |hd.parts|
      invariant 0 <= i <= |hd.parts| && used == |GptSlots(hd.parts[..i])| <= GPT_ENTRIES
      invariant fresh(table) && table[..used] == GptSlots(hd.parts[..i])
    {
      GptSlotsPrefix(hd.parts, i);
      if hd.parts[i].inTable {
        if used == GPT_ENTRIES {
          GptSlotCount(hd.parts[..i + 1]);
          CountMonotone(hd.parts, i + 1, false);
          return table, used, false;
        }
        table[used] := SlotOf(hd.parts[i]);
        used := used + 1;
      }
      i := i + 1;
    }
    assert hd.parts[..i] == hd.parts;
    GptSlotCount(hd.parts);
  }

  // ---------------------------------------------------------------- what the slots say

  /** The entries that take a slot, in order. */
  function Taking(c: Config, mbr: bool, ps: seq<Part>): seq<Part> {
    if ps == [] then []
    else
      var p := ps[|ps| - 1];
      Taking(c, mbr, ps[..|ps| - 1]) + if (if mbr then InMbr(c, p) else p.inTable) then [p] else []
  }

  /** A slot describes the sectors of its entry, if the entry starts and ends with a sector. */
  predicate Describes(s: Slot, p: Part) {
    && s.kind == p.e.partitionType
    && 512 * s.start <= p.offset < 512 * s.start + 512 && 512 * s.sectors <= p.size < 512 * s.sectors + 512
  }

  lemma {:induction false} SlotsDescribe(c: Config, ps: seq<Part>)
    ensures |MbrSlots(c, ps)| == |Taking(c, true, ps)| && |GptSlots(ps)| == |Taking(c, false, ps)|
    ensures forall k :: 0 <= k < |MbrSlots(c, ps)| ==> Describes(MbrSlots(c, ps)[k], Taking(c, true, ps)[k])
    ensures forall k :: 0 <= k < |GptSlots(ps)| ==> Describes(GptSlots(ps)[k], Taking(c, false, ps)[k])
  {
    if ps != [] {
      SlotsDescribe(c, ps[..|ps| - 1]);
    }
  }

  /** The sectors of a slot are the bytes of its entry exactly if the entry is aligned to sectors. */
  lemma SlotExact(s: Slot, p: Part)
    requires Describes(s, p)
    ensures 512 * s.start == p.offset && 512 * s.sectors == p.size <==> p.offset % 512 == 0 && p.size % 512 == 0
  {
  }

  /** An entry of the table whose own alignment is not one of sectors. */
  function Crooked(): Part {
    Part(Entry(User, false, false, false, 131, None), 1000, 512, 1, true, false)
  }

  /**
    hdimage_setup reports such an alignment but goes on: an MBR image with a partition at byte 1000 is
    accepted, and its table says that the partition starts at byte 512.
   */
  method CrookedAccepted() returns (accepted: bool, start: nat)
    ensures accepted && start == 1 && 512 * start != Crooked().offset
  {
    var hd := new HdImage(Config(MbrTable, 512, 0, 0, false, true, map[]), [Crooked()], 4096);
    CrookedPlanned(hd);
    accepted := hd.Setup();
    start := SlotOf(Crooked()).start;
  }

  lemma CrookedPlanned(hd: HdImage)
    requires hd.cfg == Config(MbrTable, 512, 0, 0, false, true, map[]) && hd.parts == [Crooked()]
    requires hd.align == 512 && hd.extended == None && hd.extendedIndex == 0 && hd.imageSize == 4096
    ensures hd.Fresh() && hd.WellPlanned()
  {
    CountStep(hd.parts, 0, false);
    assert hd.parts[..0] == [] && hd.parts[..1] == hd.parts;
    var all := hd.parts + hd.Tables(4096);
    hd.GivenSuits(512, all[0], Frontier(512, None, all, 0));
    hd.GivenSuits(512, all[1], Frontier(512, None, all, 1));
    assert hd.PlannedAs(all);
  }

  // ---------------------------------------------------------------- more entries than the table holds

  /** One sector for each of n entries, behind the GPT. */
  function Row(n: nat): seq<Part> {
    seq(n, i requires 0 <= i =>
      Part(Entry(User, false, false, false, 0, None), 512 * (i + 40), 512, 512, true, false))
  }

  lemma {:induction false} RowCount(n: nat)
    ensures Count(Row(n), false) == n
  {
    if n > 0 {
      RowCount(n - 1);
      assert Row(n)[..n - 1] == Row(n - 1);
    }
  }

  lemma {:induction false} NoHybrid(ps: seq<Part>)
    requires forall i :: 0 <= i < |ps| ==> ps[i].e.partitionType == 0
    ensures CountHybrid(ps) == 0
  {
    if ps != [] {
      NoHybrid(ps[..|ps| - 1]);
    }
  }

  /** hdimage_setup accepts a GPT image with any number of entries, so also with more than the table holds. */
  lemma AnyNumberAccepted(hd: HdImage, n: nat)
    requires hd.cfg == Config(GptTable, 512, 0, 0, false, true, map[]) && hd.parts == Row(n)
    requires hd.align == 512 && hd.extended == None && hd.extendedIndex == 0 && hd.imageSize == 512 * (n + 80)
    ensures hd.Fresh() && hd.WellPlanned() && Count(hd.parts, false) == n
  {
    RowCount(n);
    NoHybrid(hd.parts + hd.Tables(hd.imageSize));
    RowFits(hd, n);
    assert hd.PlannedAs(hd.parts + hd.Tables(hd.imageSize));
  }

  lemma RowFits(hd: HdImage, n: nat)
    requires hd.cfg == Config(GptTable, 512, 0, 0, false, true, map[])
    ensures var all, size := Row(n) + hd.Tables(512 * (n + 80)), 512 * (n + 80);
            hd.PlanFits(512, all, all, size)
  {
    var all, size := Row(n) + hd.Tables(512 * (n + 80)), 512 * (n + 80);
    assert |all| == n + 4;
    forall i | 0 <= i < |all|
      ensures hd.Suits(512, all[i], all[i], Frontier(hd.Start(), None, all, i)) && all[i].End() <= size
    {
      RowGiven(hd, n, i);
      hd.GivenSuits(512, all[i], Frontier(hd.Start(), None, all, i));
    }
    forall i, j | 0 <= i < j < |all|
      ensures Apart(all[j], all[i])
    {
      RowApart(hd, n, i, j);
    }
  }

  /**
    hdimage_setup and the loop of hdimage_insert_gpt on such an image: setup accepts it, and the loop leaves
    its table if and only if there are more than 128 entries.
   */
  method OverrunRow(n: nat) returns (accepted: bool, inside: bool)
    ensures accepted && (inside <==> n <= GPT_ENTRIES)
  {
    var hd := new HdImage(Config(GptTable, 512, 0, 0, false, true, map[]), Row(n), 512 * (n + 80));
    AnyNumberAccepted(hd, n);
    accepted := hd.Setup();
    var _, _, stays := FillGpt(hd);
    inside := stays;
  }

  lemma RowApart(hd: HdImage, n: nat, i: nat, j: nat)
    requires hd.cfg == Config(GptTable, 512, 0, 0, false, true, map[]) && i < j < n + 4
    ensures var all := Row(n) + hd.Tables(512 * (n + 80)); Apart(all[j], all[i])
  {
    var all := Row(n) + hd.Tables(512 * (n + 80));
    assert i < n ==> all[i].offset == 512 * (i + 40) && all[i].size == 512;
    assert j < n ==> all[j].offset == 512 * (j + 40) && all[j].size == 512;
  }

  lemma RowGiven(hd: HdImage, n: nat, i: nat)
    requires hd.cfg == Config(GptTable, 512, 0, 0, false, true, map[]) && i < n + 4
    ensures var p := (Row(n) + hd.Tables(512 * (n + 80)))[i];
            hd.Given(p) && p.End() <= 512 * (n + 80)
  {
  }
}
