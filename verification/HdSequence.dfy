/**
  The usual configuration of genimage's image-hd.c: a list of partitions with sizes and no offsets.  There
  is always a place for each of them, one behind the other, so that hdimage_setup accepts it.
 */
module HdSequence {
  import opened Common
  import opened HdPlaces
  import opened HdLayout

  /** The entries placed one behind the other. */
  function Line(c: Config, default: nat, start: nat, ps: seq<Part>): (qs: seq<Part>)
    requires default > 0
    ensures |qs| == |ps|
  {
    if ps == [] then []
    else
      var front, p := ps[..|ps| - 1], ps[|ps| - 1];
      var qs := Line(c, default, start, front);
      qs + [PlaceOf(c, default, p, Frontier(start, None, qs, |qs|))]
  }

  lemma {:induction false} LinePrefix(c: Config, default: nat, start: nat, ps: seq<Part>, i: nat)
    requires default > 0 && i <= |ps|
    ensures Line(c, default, start, ps)[..i] == Line(c, default, start, ps[..i])
  {
    if i < |ps| {
      var front := ps[..|ps| - 1];
      LinePrefix(c, default, start, front, i);
      assert front[..i] == ps[..i];
      assert Line(c, default, start, ps)[..i] == Line(c, default, start, front)[..i];
    } else {
      assert ps[..i] == ps;
    }
  }

  /** Each entry is placed behind where the ones before it end. */
  lemma LineAt(c: Config, default: nat, start: nat, ps: seq<Part>, i: nat)
    requires default > 0 && i < |ps|
    ensures var qs := Line(c, default, start, ps);
            qs[i] == PlaceOf(c, default, ps[i], Frontier(start, None, qs, i))
  {
    var qs, n := Line(c, default, start, ps), i + 1;
    var less, front := ps[..n], ps[..i];
    LinePrefix(c, default, start, ps, n);
    LinePrefix(c, default, start, ps, i);
    assert less[..|less| - 1] == front && less[|less| - 1] == ps[i];
    assert qs[i] == qs[..n][i] == Line(c, default, start, less)[i];
    var before := Line(c, default, start, front);
    assert forall j :: 0 <= j < i ==> before[j] == qs[..i][j] == qs[j];
    FrontierSame(start, before, qs, i);
  }

  /** An entry of the table with a size of whole sectors and no offset. */
  predicate Loose(p: Part) {
    && p.e.kind == User && p.inTable && p.offset == 0 && p.size > 0 && p.size % 512 == 0
    && !p.e.autoresize && !p.logical
  }

  /** Its place suits it, and is behind everything before it. */
  lemma LooseSuits(hd: HdImage, default: nat, p: Part, now: nat)
    requires default > 0 && now > 0 && Loose(p) && hd.Holding(p) && hd.cfg.tableType != NoTable
    ensures var q := PlaceOf(hd.cfg, default, p, now); hd.Suits(default, p, q, now) && q.offset >= now
  {
    PlaceFollows(hd.cfg, default, p, now);
    RoundUpIsLeast(now, PlaceOf(hd.cfg, default, p, now).align);
  }

  /** The table areas have their own places; a backup without one goes to the end. */
  lemma AreaSuits(hd: HdImage, default: nat, k: nat, now: nat)
    requires default > 0 && now > 0 && k < |hd.Tables(0)|
    ensures var p := hd.Tables(0)[k];
            var q := PlaceOf(hd.cfg, default, p, now);
            hd.Suits(default, p, q, now) && (if k < 3 then q == p else q.offset >= now)
  {
    var p := hd.Tables(0)[k];
    PlaceFollows(hd.cfg, default, p, now);
    if k == 3 {
      BackupLeast(now, p.size);
    }
    assert PlaceOf(hd.cfg, default, p, now).align == 1;
  }

  /**
    Without offsets and without a given image size, hdimage_setup accepts every list of partitions with
    sizes that hold their images, if it has few enough entries and the partition types fit the table.
   */
  lemma SequencePlanned(hd: HdImage)
    requires hd.cfg.tableType != NoTable && hd.imageSize == 0 && hd.FewEntries()
    requires hd.DefaultAlign() % 512 == 0 && hd.TypesFit(hd.parts + hd.Tables(0))
    requires HasGpt(hd.cfg.tableType) ==> hd.GptLocation() >= 1024
    requires forall i :: 0 <= i < |hd.parts| ==> Loose(hd.parts[i]) && hd.Holding(hd.parts[i])
    ensures hd.WellPlanned()
  {
    var default, all := hd.DefaultAlign(), hd.parts + hd.Tables(0);
    var qs := Line(hd.cfg, default, hd.Start(), all);
    forall i | 0 <= i < |all|
      ensures hd.Suits(default, all[i], qs[i], Frontier(hd.Start(), None, qs, i))
    {
      EntryPlace(hd, default, i);
    }
    forall i, j | 0 <= i < j < |all|
      ensures Apart(qs[j], qs[i])
    {
      PlacesApart(hd, default, i, j);
    }
    assert hd.PlannedAs(qs);
  }

  /** Where entry i goes. */
  lemma EntryPlace(hd: HdImage, default: nat, i: nat)
    requires default > 0 && hd.cfg.tableType != NoTable && i < |hd.parts + hd.Tables(0)|
    requires forall k :: 0 <= k < |hd.parts| ==> Loose(hd.parts[k]) && hd.Holding(hd.parts[k])
    ensures var all := hd.parts + hd.Tables(0);
            var qs := Line(hd.cfg, default, hd.Start(), all);
            var now := Frontier(hd.Start(), None, qs, i);
            && hd.Suits(default, all[i], qs[i], now)
            && (if |hd.parts| <= i < |hd.parts| + 3 then qs[i] == hd.Tables(0)[i - |hd.parts|] else qs[i].offset >= now)
  {
    var all := hd.parts + hd.Tables(0);
    var qs := Line(hd.cfg, default, hd.Start(), all);
    var now := Frontier(hd.Start(), None, qs, i);
    LineAt(hd.cfg, default, hd.Start(), all, i);
    FrontierIsEnd(hd.Start(), None, qs, i);
    if i < |hd.parts| {
      LooseSuits(hd, default, all[i], now);
    } else {
      AreaSuits(hd, default, i - |hd.parts|, now);
    }
  }

  lemma PlacesApart(hd: HdImage, default: nat, i: nat, j: nat)
    requires default > 0 && hd.cfg.tableType != NoTable && i < j < |hd.parts + hd.Tables(0)|
    requires HasGpt(hd.cfg.tableType) ==> hd.GptLocation() >= 1024
    requires forall k :: 0 <= k < |hd.parts| ==> Loose(hd.parts[k]) && hd.Holding(hd.parts[k])
    ensures var qs := Line(hd.cfg, default, hd.Start(), hd.parts + hd.Tables(0)); Apart(qs[j], qs[i])
  {
    var qs := Line(hd.cfg, default, hd.Start(), hd.parts + hd.Tables(0));
    EntryPlace(hd, default, i);
    EntryPlace(hd, default, j);
    FrontierIsEnd(hd.Start(), None, qs, i);
    FrontierIsEnd(hd.Start(), None, qs, j);
    assert EndSeen(None, qs, i) == qs[i].End();
  }
}
