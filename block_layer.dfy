/**
  The background layer: one band behind the content of every block that
  overlaps the rendered viewport, coloured by the block's position in the
  whole list, and clipped to the first and last visible range. Only the
  document positions are modelled; their pixel coordinates are not.
 */
module BlockLayer {
  import opened NoteTree

  datatype BandClass = BlockEven | BlockOdd

  /**
    A background band: its CSS class and the two document positions whose
    screen coordinates give its top and its bottom.
   */
  datatype Band = Band(cls: BandClass, top: nat, bottom: nat)

  /** `rangesOverlaps`: inclusive at both ends, so ranges that only touch overlap. */
  predicate RangesOverlap(a: Range, b: Range)
  {
    a.from <= b.to && b.from <= a.to
  }

  /** Some visible range overlaps `content`. */
  predicate Visible(content: Range, visibleRanges: seq<Range>)
  {
    exists i | 0 <= i < |visibleRanges| :: RangesOverlap(content, visibleRanges[i])
  }

  function ParityClass(idx: nat): BandClass
  {
    if idx % 2 == 0 then BlockEven else BlockOdd
  }

  function Max(a: nat, b: nat): nat { if a < b then b else a }

  function Min(a: nat, b: nat): nat { if a < b then a else b }

  /** The band for the block at list position `idx`. */
  function BandFor(block: Block, idx: nat, visibleRanges: seq<Range>): Band
    requires visibleRanges != []
  {
    Band(ParityClass(idx),
         Max(block.content.from, visibleRanges[0].from),
         Min(block.content.to, visibleRanges[|visibleRanges| - 1].to))
  }

  /** The bands of the blocks from position `idx` on. */
  function BandsFrom(blocks: seq<Block>, visibleRanges: seq<Range>, idx: nat): seq<Band>
    requires idx <= |blocks|
    decreases |blocks| - idx
  {
    if idx == |blocks| then []
    else
      (if Visible(blocks[idx].content, visibleRanges) then [BandFor(blocks[idx], idx, visibleRanges)] else [])
      + BandsFrom(blocks, visibleRanges, idx + 1)
  }

  /**
    `markers`: the running index counts every block, visible or not, and the
    visible ones push a band.
   */
  method Markers(blocks: seq<Block>, visibleRanges: seq<Range>) returns (markers: seq<Band>)
    ensures markers == BandsFrom(blocks, visibleRanges, 0)
  {
    markers := [];
    var idx := 0;
    for k := 0 to |blocks|
      invariant idx == k
      invariant markers + BandsFrom(blocks, visibleRanges, k) == BandsFrom(blocks, visibleRanges, 0)
    {
      var block := blocks[k];
      assert BandsFrom(blocks, visibleRanges, k) ==
        (if Visible(block.content, visibleRanges) then [BandFor(block, k, visibleRanges)] else [])
        + BandsFrom(blocks, visibleRanges, k + 1);
      if !Visible(block.content, visibleRanges) {
        idx := idx + 1;
      } else {
        var from := Max(block.content.from, visibleRanges[0].from);
        var to := Min(block.content.to, visibleRanges[|visibleRanges| - 1].to);
        markers := markers + [Band(ParityClass(idx), from, to)];
        idx := idx + 1;
      }
    }
  }

  /** `m` is the band of some visible block, coloured by that block's position in the list. */
  ghost predicate BandOfVisibleBlock(blocks: seq<Block>, visibleRanges: seq<Range>, idx: nat, m: Band)
  {
    exists k :: idx <= k < |blocks| && Visible(blocks[k].content, visibleRanges) &&
      m == BandFor(blocks[k], k, visibleRanges)
  }

  lemma {:induction false} BandsFromExactly(blocks: seq<Block>, visibleRanges: seq<Range>, idx: nat)
    requires idx <= |blocks|
    ensures forall m :: m in BandsFrom(blocks, visibleRanges, idx) <==> BandOfVisibleBlock(blocks, visibleRanges, idx, m)
    decreases |blocks| - idx
  {
    if idx < |blocks| {
      BandsFromExactly(blocks, visibleRanges, idx + 1);
      forall m | BandOfVisibleBlock(blocks, visibleRanges, idx, m)
        ensures m in BandsFrom(blocks, visibleRanges, idx)
      {
        var k :| idx <= k < |blocks| && Visible(blocks[k].content, visibleRanges) &&
          m == BandFor(blocks[k], k, visibleRanges);
        if k > idx {
          assert BandOfVisibleBlock(blocks, visibleRanges, idx + 1, m);
        }
      }
      forall m | m in BandsFrom(blocks, visibleRanges, idx)
        ensures BandOfVisibleBlock(blocks, visibleRanges, idx, m)
      {
        if m !in BandsFrom(blocks, visibleRanges, idx + 1) {
          assert m == BandFor(blocks[idx], idx, visibleRanges);
        }
      }
    }
  }

  /**
    The bands are exactly those of the visible blocks, and the class of a
    block's band depends only on its position in the whole list, so scrolling
    never changes a block's colour.
   */
  lemma BandsOfVisibleBlocks(blocks: seq<Block>, visibleRanges: seq<Range>)
    ensures forall m :: m in BandsFrom(blocks, visibleRanges, 0) <==>
      exists k :: 0 <= k < |blocks| && Visible(blocks[k].content, visibleRanges) &&
        m == BandFor(blocks[k], k, visibleRanges)
  {
    BandsFromExactly(blocks, visibleRanges, 0);
  }

  /** The list positions, from `idx` on, of the blocks that overlap the viewport. */
  ghost function VisibleIndices(blocks: seq<Block>, visibleRanges: seq<Range>, idx: nat): set<nat>
  {
    set k: nat | idx <= k < |blocks| && Visible(blocks[k].content, visibleRanges)
  }

  /** One band per visible block: as many bands as blocks on screen. */
  lemma {:induction false} BandsFromCount(blocks: seq<Block>, visibleRanges: seq<Range>, idx: nat)
    requires idx <= |blocks|
    ensures |BandsFrom(blocks, visibleRanges, idx)| == |VisibleIndices(blocks, visibleRanges, idx)|
    decreases |blocks| - idx
  {
    if idx == |blocks| {
      assert VisibleIndices(blocks, visibleRanges, idx) == {};
    } else {
      BandsFromCount(blocks, visibleRanges, idx + 1);
      var rest := VisibleIndices(blocks, visibleRanges, idx + 1);
      assert idx !in rest;
      if Visible(blocks[idx].content, visibleRanges) {
        assert VisibleIndices(blocks, visibleRanges, idx) == {idx} + rest;
      } else {
        assert VisibleIndices(blocks, visibleRanges, idx) == rest;
      }
    }
  }

  lemma {:induction false} AllVisibleFrom(blocks: seq<Block>, visibleRanges: seq<Range>, idx: nat)
    requires idx <= |blocks|
    requires forall k :: 0 <= k < |blocks| ==> Visible(blocks[k].content, visibleRanges)
    ensures |BandsFrom(blocks, visibleRanges, idx)| == |blocks| - idx
    ensures forall k :: idx <= k < |blocks| ==>
      BandsFrom(blocks, visibleRanges, idx)[k - idx] == BandFor(blocks[k], k, visibleRanges)
    decreases |blocks| - idx
  {
    if idx < |blocks| {
      AllVisibleFrom(blocks, visibleRanges, idx + 1);
      var rest := BandsFrom(blocks, visibleRanges, idx + 1);
      assert Visible(blocks[idx].content, visibleRanges);
      assert BandsFrom(blocks, visibleRanges, idx) == [BandFor(blocks[idx], idx, visibleRanges)] + rest;
    }
  }

  /** When every block is on screen, the bands alternate even, odd, even, ... in block order. */
  lemma AllVisibleAlternate(blocks: seq<Block>, visibleRanges: seq<Range>)
    requires forall k :: 0 <= k < |blocks| ==> Visible(blocks[k].content, visibleRanges)
    ensures |BandsFrom(blocks, visibleRanges, 0)| == |blocks|
    ensures forall k :: 0 <= k < |blocks| ==>
      BandsFrom(blocks, visibleRanges, 0)[k].cls == (if k % 2 == 0 then BlockEven else BlockOdd)
  {
    AllVisibleFrom(blocks, visibleRanges, 0);
    forall k | 0 <= k < |blocks|
      ensures BandsFrom(blocks, visibleRanges, 0)[k].cls == (if k % 2 == 0 then BlockEven else BlockOdd)
    {
      assert BandsFrom(blocks, visibleRanges, 0)[k - 0] == BandFor(blocks[k], k, visibleRanges);
    }
  }

  /** Visible ranges are well formed and come in document order. */
  ghost predicate SortedRanges(rs: seq<Range>)
  {
    (forall i :: 0 <= i < |rs| ==> rs[i].from <= rs[i].to) &&
    (forall i, j :: 0 <= i < j < |rs| ==> rs[i].to <= rs[j].from)
  }

  /**
    With sorted visible ranges, the band of a visible block starts no earlier
    than its content, ends no later, and does not end before it starts.
   */
  lemma BandWithinContent(block: Block, idx: nat, visibleRanges: seq<Range>)
    requires SortedRanges(visibleRanges)
    requires block.content.from <= block.content.to
    requires Visible(block.content, visibleRanges)
    ensures block.content.from <= BandFor(block, idx, visibleRanges).top
    ensures BandFor(block, idx, visibleRanges).top <= BandFor(block, idx, visibleRanges).bottom
    ensures BandFor(block, idx, visibleRanges).bottom <= block.content.to
  {
    var i :| 0 <= i < |visibleRanges| && RangesOverlap(block.content, visibleRanges[i]);
    var last := |visibleRanges| - 1;
    assert visibleRanges[0].from <= visibleRanges[i].from;
    assert visibleRanges[i].to <= visibleRanges[last].to;
  }

  /** The layer's `update`: redraw when the document or the viewport changed. */
  predicate NeedsRedraw(docChanged: bool, viewportChanged: bool)
  {
    docChanged || viewportChanged
  }

  /** The layer with the bands it last drew. */
  class BackgroundLayer {
    var markers: seq<Band>

    constructor Create(blocks: seq<Block>, visibleRanges: seq<Range>)
      ensures markers == BandsFrom(blocks, visibleRanges, 0)
    {
      var ms := Markers(blocks, visibleRanges);
      markers := ms;
    }

    method Update(docChanged: bool, viewportChanged: bool, blocks: seq<Block>, visibleRanges: seq<Range>)
      modifies this
      ensures NeedsRedraw(docChanged, viewportChanged) ==> markers == BandsFrom(blocks, visibleRanges, 0)
      ensures !NeedsRedraw(docChanged, viewportChanged) ==> markers == old(markers)
    {
      if NeedsRedraw(docChanged, viewportChanged) {
        markers := Markers(blocks, visibleRanges);
      }
    }
  }
}
