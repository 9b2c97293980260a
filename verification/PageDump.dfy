/** The debugger's listing of the page tables: runs of pages that translate to
    consecutive frames are printed as one interval. */
module PageDump {
  import opened Machine
  import opened Wrappers

  /** One printed line: linear bounds and physical bounds, both inclusive. */
  datatype Interval = Interval(lo: u32, hi: u32, plo: u64, phi: u64)

  const PAGE := 0x1000
  const LAST_PAGE: u32 := 0xffff_f000

  predicate IsPage(lin: int) {
    0 <= lin < 0x1_0000_0000 && lin % 0x1000 == 0
  }

  /** What the line says about page `lin`. */
  function Decode(iv: Interval, lin: u32): u64 {
    Wrap64(iv.plo + (lin - iv.lo))
  }

  predicate Covers(iv: Interval, lin: u32) {
    iv.lo <= lin <= iv.hi
  }

  /** The bounds of a line are whole pages, and its two ranges have one length. */
  predicate WholePages(iv: Interval) {
    iv.lo <= iv.hi && IsPage(iv.lo) && IsPage(iv.hi + 1 - PAGE) && iv.phi == Wrap64(iv.plo + (iv.hi - iv.lo))
  }

  /** Every page of the line is mapped where the line says. */
  ghost predicate Sound(iv: Interval, xlate: u32 -> Option<u64>) {
    WholePages(iv) && forall lin: u32 :: IsPage(lin) && Covers(iv, lin) ==> xlate(lin) == Some(Decode(iv, lin))
  }

  ghost predicate Listed(out: seq<Interval>, lin: u32) {
    exists i :: 0 <= i < |out| && Covers(out[i], lin)
  }

  predicate Extends(iv: Interval, lin: u32, phy: u64) {
    lin == iv.hi + 1 && phy == Wrap64(iv.phi + 1)
  }

  /** Lines are in order and no line continues the one before it. */
  ghost predicate Separate(out: seq<Interval>) {
    forall i :: 0 < i < |out| ==> out[i - 1].hi < out[i].lo && !Extends(out[i - 1], out[i].lo, out[i].plo)
  }

  /** The listing decodes to exactly the translation of the pages below `limit`. */
  ghost predicate Lists(out: seq<Interval>, xlate: u32 -> Option<u64>, limit: int) {
    && (forall i :: 0 <= i < |out| ==> Sound(out[i], xlate) && out[i].hi < limit)
    && Separate(out)
    && (forall lin: u32 :: IsPage(lin) && lin < limit && xlate(lin).Some? ==> Listed(out, lin))
  }

  /** The interval being grown. The sentinel 1, 2 stands for none. */
  function Open(startLin: u32, startPhy: u64, lin: int): Interval
    requires startLin < lin <= 0x1_0000_0000
  {
    Interval(startLin, lin - 1, startPhy, Wrap64(startPhy + (lin - 1 - startLin)))
  }

  ghost predicate MayFollow(out: seq<Interval>, lin: u32, phy: u64) {
    out != [] ==> !Extends(out[|out| - 1], lin, phy)
  }

  /** The pages below `limit` are listed, those from `startLin` on in the interval
      that is still open. */
  ghost predicate Progress(out: seq<Interval>, xlate: u32 -> Option<u64>, startLin: u32, startPhy: u64, limit: int) {
    if startLin == 1 then
      startPhy == 2 && Lists(out, xlate, limit) && (out != [] ==> out[|out| - 1].hi + 1 < limit)
    else
      && startLin < limit <= 0x1_0000_0000 && Lists(out, xlate, startLin)
      && Sound(Open(startLin, startPhy, limit), xlate) && MayFollow(out, startLin, startPhy)
  }

  lemma PageBelow(l: int, lin: int)
    requires IsPage(l) && IsPage(lin) && l < lin + 0x1000
    ensures l <= lin && lin + 0x1000 <= 0x1_0000_0000
    ensures lin != 0xffff_f000 ==> IsPage(lin + 0x1000)
  {
  }

  lemma ListedGrows(out: seq<Interval>, iv: Interval, lin: u32)
    requires Listed(out, lin) || Covers(iv, lin)
    ensures Listed(out + [iv], lin)
  {
    if Covers(iv, lin) {
      assert (out + [iv])[|out|] == iv;
    } else {
      var i :| 0 <= i < |out| && Covers(out[i], lin);
      assert (out + [iv])[i] == out[i];
    }
  }

  /** An unmapped page adds nothing. */
  lemma SkipPage(out: seq<Interval>, xlate: u32 -> Option<u64>, lin: u32)
    requires Lists(out, xlate, lin) && IsPage(lin) && xlate(lin).None?
    ensures Lists(out, xlate, lin + 0x1000)
  {
    forall l: u32 | IsPage(l) && l < lin + 0x1000 && xlate(l).Some? ensures Listed(out, l) {
      PageBelow(l, lin);
    }
  }

  /** Printing the open interval. */
  lemma CloseLine(out: seq<Interval>, xlate: u32 -> Option<u64>, startLin: u32, startPhy: u64, limit: int)
    requires startLin != 1 && Progress(out, xlate, startLin, startPhy, limit)
    ensures Lists(out + [Open(startLin, startPhy, limit)], xlate, limit)
  {
    hide Wrap64, IsPage, Sound, Extends, Listed, Separate;
    var iv := Open(startLin, startPhy, limit);
    AppendSeparate(out, iv);
    forall l: u32 | IsPage(l) && l < limit && xlate(l).Some? ensures Listed(out + [iv], l) {
      if l >= startLin {
        assert Covers(iv, l);
      }
      ListedGrows(out, iv, l);
    }
  }

  lemma AppendSeparate(out: seq<Interval>, iv: Interval)
    requires Separate(out) && MayFollow(out, iv.lo, iv.plo) && (out != [] ==> out[|out| - 1].hi < iv.lo)
    ensures Separate(out + [iv])
  {
    hide Extends;
    var out' := out + [iv];
    forall i | 0 < i < |out'| ensures out'[i - 1].hi < out'[i].lo && !Extends(out'[i - 1], out'[i].lo, out'[i].plo) {
      assert out'[i - 1] == out[i - 1];
    }
  }

  /** One page is an interval. */
  lemma OpenPage(xlate: u32 -> Option<u64>, lin: u32, phy: u64)
    requires IsPage(lin) && xlate(lin) == Some(phy)
    ensures lin + 0x1000 <= 0x1_0000_0000 && Sound(Open(lin, phy, lin + 0x1000), xlate)
  {
    PageBelow(lin, lin);
    var iv := Open(lin, phy, lin + 0x1000);
    forall l: u32 | IsPage(l) && Covers(iv, l) ensures xlate(l) == Some(Decode(iv, l)) {
      PageBelow(l, lin);
    }
  }

  /** A mapped page that continues the open interval makes it longer. */
  lemma GrowPage(xlate: u32 -> Option<u64>, startLin: u32, startPhy: u64, lin: u32, phy: u64)
    requires startLin < lin && Sound(Open(startLin, startPhy, lin), xlate)
    requires IsPage(lin) && xlate(lin) == Some(phy) && phy == Wrap64(startPhy + (lin - startLin))
    ensures lin + 0x1000 <= 0x1_0000_0000 && Sound(Open(startLin, startPhy, lin + 0x1000), xlate)
  {
    PageBelow(lin, lin);
    var iv := Open(startLin, startPhy, lin);
    var iv' := Open(startLin, startPhy, lin + 0x1000);
    forall l: u32 | IsPage(l) && Covers(iv', l) ensures xlate(l) == Some(Decode(iv', l)) {
      PageBelow(l, lin);
      assert l < lin ==> Covers(iv, l) && Decode(iv, l) == Decode(iv', l);
    }
  }

  /** The test that tells a continuing page: two differences, one in 32 bits and
      one in 64. */
  predicate Continues(startLin: u32, startPhy: u64, lin: u32, phy: u64) {
    Wrap32(lin - startLin) == Wrap64(phy - startPhy)
  }

  lemma ContinuesExactly(startLin: u32, startPhy: u64, lin: u32, phy: u64)
    requires startLin < lin
    ensures Continues(startLin, startPhy, lin, phy) <==> phy == Wrap64(startPhy + (lin - startLin))
  {
  }

  /** The only frame that looks as if page `lin` continued the sentinel; it is
      never page aligned. */
  function Trap(lin: u32): u64 {
    if lin == 0 then 0x1_0000_0001 else lin + 1
  }

  lemma SentinelContinues(lin: u32, phy: u64)
    requires IsPage(lin)
    ensures Continues(1, 2, lin, phy) <==> phy == Trap(lin)
    ensures Trap(lin) % 0x1000 == 1
  {
  }

  /** Frames are whole pages, as page translation yields them. */
  ghost predicate FramesAligned(xlate: u32 -> Option<u64>) {
    forall lin: u32 :: IsPage(lin) && xlate(lin).Some? ==> xlate(lin).value % 0x1000 == 0
  }

  /** One round of the loop. */
  method DumpPage(xlate: u32 -> Option<u64>, out: seq<Interval>, startLin: u32, startPhy: u64, lin: u32)
    returns (out': seq<Interval>, startLin': u32, startPhy': u64)
    requires FramesAligned(xlate) && IsPage(lin) && Progress(out, xlate, startLin, startPhy, lin)
    ensures Progress(out', xlate, startLin', startPhy', lin + 0x1000)
  {
    hide Lists, Sound, IsPage, Continues;
    out', startLin', startPhy' := out, startLin, startPhy;
    match xlate(lin)
    case Some(frame) =>
      SentinelContinues(lin, frame);
      OpenPage(xlate, lin, frame);
      if startLin != 1 {
        ContinuesExactly(startLin, startPhy, lin, frame);
      }
      if !Continues(startLin, startPhy, lin, frame) {
        if startLin != 1 {
          out' := out + [Open(startLin, startPhy, lin)];
          CloseLine(out, xlate, startLin, startPhy, lin);
        }
        PageIsNotSentinel(lin);
        startLin', startPhy' := lin, frame;
      } else {
        GrowPage(xlate, startLin, startPhy, lin, frame);
      }
    case None =>
      if startLin != 1 {
        out' := out + [Open(startLin, startPhy, lin)];
        CloseLine(out, xlate, startLin, startPhy, lin);
      }
      SkipPage(out', xlate, lin);
      startLin', startPhy' := 1, 2;
  }

  lemma PageIsNotSentinel(lin: u32)
    requires IsPage(lin)
    ensures lin != 1
  {
  }

  /** For every page translation, the printed lines decode to exactly that
      translation and no line could be joined to the one before. */
  method DumpTable(xlate: u32 -> Option<u64>) returns (out: seq<Interval>)
    requires FramesAligned(xlate)
    ensures Lists(out, xlate, 0x1_0000_0000)
  {
    hide Lists, Sound, FramesAligned;
    out := [];
    var lin: u32, startLin: u32, startPhy: u64 := 0, 1, 2;
    NothingListed(xlate);
    while true
      invariant IsPage(lin) && Progress(out, xlate, startLin, startPhy, lin)
      decreases 0x1_0000_0000 - (lin as int)
    {
      PageBelow(lin, lin);
      out, startLin, startPhy := DumpPage(xlate, out, startLin, startPhy, lin);
      if lin == LAST_PAGE {
        break;
      }
      lin := lin + 0x1000;
    }
    if startLin != 1 {
      CloseLine(out, xlate, startLin, startPhy, 0x1_0000_0000);
      out := out + [Open(startLin, startPhy, 0x1_0000_0000)];
    }
  }

  lemma NothingListed(xlate: u32 -> Option<u64>)
    ensures Lists([], xlate, 0)
  {
  }

  /** The converse of soundness: a page is in some line exactly if it is mapped,
      and then every line it is in gives its frame. */
  lemma ListingDecodes(out: seq<Interval>, xlate: u32 -> Option<u64>, lin: u32)
    requires Lists(out, xlate, 0x1_0000_0000) && IsPage(lin)
    ensures Listed(out, lin) <==> xlate(lin).Some?
    ensures forall i :: 0 <= i < |out| && Covers(out[i], lin) ==> xlate(lin) == Some(Decode(out[i], lin))
  {
    if Listed(out, lin) {
      var i :| 0 <= i < |out| && Covers(out[i], lin);
      assert Sound(out[i], xlate);
    }
  }

  lemma {:induction false} LaterAbove(out: seq<Interval>, xlate: u32 -> Option<u64>, i: nat, j: nat)
    requires Lists(out, xlate, 0x1_0000_0000) && i < j < |out|
    ensures out[i].hi < out[j].lo && (j > i + 1 ==> out[i].hi + 1 < out[j].lo)
    decreases j
  {
    hide Wrap64, IsPage, Extends;
    assert out[j - 1].hi < out[j].lo && Sound(out[j - 1], xlate);
    if i + 1 < j {
      LaterAbove(out, xlate, i, j - 1);
    }
  }

  /** A line cannot be made longer: the page behind its last one, if there is one, is not
      mapped or not to the frame behind its last one. */
  lemma LinesAreMaximal(out: seq<Interval>, xlate: u32 -> Option<u64>, i: nat)
    requires Lists(out, xlate, 0x1_0000_0000) && i < |out| && out[i].hi < 0xffff_ffff
    ensures xlate(out[i].hi + 1) != Some(Wrap64(out[i].phi + 1))
  {
    hide Wrap64, IsPage, Extends, Covers, Decode, WholePages;
    var lin := out[i].hi + 1;
    assert Sound(out[i], xlate);
    NextPage(out[i]);
    if xlate(lin).Some? {
      assert Listed(out, lin);
      var j :| 0 <= j < |out| && Covers(out[j], lin);
      NextLine(out, xlate, i, j);
      assert Sound(out[j], xlate) && !Extends(out[j - 1], out[j].lo, out[j].plo);
      FirstFrame(out[j]);
      NotExtended(out[i], out[j].lo, out[j].plo);
    }
  }

  lemma NextLine(out: seq<Interval>, xlate: u32 -> Option<u64>, i: nat, j: nat)
    requires Lists(out, xlate, 0x1_0000_0000) && i < |out| && j < |out|
    requires out[i].hi < 0xffff_ffff && Covers(out[j], out[i].hi + 1)
    ensures j == i + 1 && out[j].lo == out[i].hi + 1
  {
    hide Wrap64, IsPage, Extends;
    assert Sound(out[i], xlate);
    if j < i {
      LaterAbove(out, xlate, j, i);
    } else if j > i {
      LaterAbove(out, xlate, i, j);
    }
  }

  lemma FirstFrame(iv: Interval)
    ensures Decode(iv, iv.lo) == iv.plo
  {
  }

  lemma NotExtended(iv: Interval, lin: u32, phy: u64)
    requires !Extends(iv, lin, phy) && lin == iv.hi + 1
    ensures phy != Wrap64(iv.phi + 1)
  {
  }

  lemma NextPage(iv: Interval)
    requires WholePages(iv) && iv.hi < 0xffff_ffff
    ensures IsPage(iv.hi + 1)
  {
  }
}
