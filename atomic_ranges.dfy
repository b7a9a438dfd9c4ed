/**
  The atomic ranges: every delimiter span is one indivisible unit for cursor
  motion and deletion. The view plugin keeps the ranges and rebuilds them
  only when the document changed.
 */
module AtomicRanges {
  import opened NoteTree

  /** `atomicRanges`: one range per block, exactly its delimiter span, in block order. */
  method AtomicRanges(blocks: seq<Block>) returns (ranges: seq<Range>)
    ensures |ranges| == |blocks|
    ensures forall i :: 0 <= i < |blocks| ==> ranges[i] == blocks[i].delimiter
  {
    ranges := [];
    for i := 0 to |blocks|
      invariant |ranges| == i
      invariant forall k :: 0 <= k < i ==> ranges[k] == blocks[k].delimiter
    {
      ranges := ranges + [Range(blocks[i].delimiter.from, blocks[i].delimiter.to)];
    }
  }

  /** The delimiter spans of a block list, in block order. */
  function Delimiters(blocks: seq<Block>): (ds: seq<Range>)
    ensures |ds| == |blocks|
    ensures forall i :: 0 <= i < |blocks| ==> ds[i] == blocks[i].delimiter
  {
    if blocks == [] then [] else [blocks[0].delimiter] + Delimiters(blocks[1..])
  }

  /**
    For the blocks of a positioned tree the ranges reach the range-set
    builder sorted by their start (indeed disjoint), as `builder.add`
    requires.
   */
  lemma AtomicRangesSorted(root: Node)
    requires Indexable(root) && Positioned(root)
    ensures forall i, j :: 0 <= i < j < |Blocks(root)| ==>
      Delimiters(Blocks(root))[i].to <= Delimiters(Blocks(root))[j].from
    ensures forall i :: 0 <= i < |Blocks(root)| ==>
      Delimiters(Blocks(root))[i].from <= Delimiters(Blocks(root))[i].to
  {
    BlocksInDocumentOrder(root);
  }

  /** The view plugin instance holding the ranges. */
  class AtomicNoteBlock {
    var atomicRanges: seq<Range>

    constructor Create(blocks: seq<Block>)
      ensures atomicRanges == Delimiters(blocks)
    {
      var rs := AtomicRanges(blocks);
      atomicRanges := rs;
    }

    method Update(docChanged: bool, blocks: seq<Block>)
      modifies this
      ensures docChanged ==> atomicRanges == Delimiters(blocks)
      ensures !docChanged ==> atomicRanges == old(atomicRanges)
    {
      if docChanged {
        atomicRanges := AtomicRanges(blocks);
      }
    }
  }
}
