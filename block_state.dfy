/**
  The cached block list of an editor state, together with the size of the
  first delimiter that the first-block guards read. The list is computed when
  the state is created and recomputed from scratch by every transaction that
  changes the document; other transactions keep it as it is.
 */
module BlockStateField {
  import opened Wrappers
  import opened NoteTree

  /**
    `blocks[0]?.delimiter.to`: where the first delimiter ends, or undefined
    when there are no blocks (the earlier value is not kept).
   */
  function FirstBlockDelimiterSize(blocks: seq<Block>): Option<nat>
  {
    if blocks == [] then None else Some(blocks[0].delimiter.to)
  }

  class BlockState {
    var blocks: seq<Block>
    /** The module-level `firstBlockDelimiterSize`, owned by the state it is derived from. */
    var firstBlockDelimiterSize: Option<nat>

    /** The published size always belongs to the current block list. */
    ghost predicate Valid()
      reads this
    {
      firstBlockDelimiterSize == FirstBlockDelimiterSize(blocks)
    }

    /** `create`: index the initial document. */
    constructor Create(root: Node)
      requires Indexable(root)
      ensures Valid() && blocks == Blocks(root)
    {
      var bs := IterateBlocks(root);
      blocks := bs;
      firstBlockDelimiterSize := FirstBlockDelimiterSize(bs);
    }

    /** `getBlocks`: index the document and, as a side effect, publish the first delimiter's size. */
    method GetBlocks(root: Node) returns (bs: seq<Block>)
      requires Indexable(root)
      modifies this`firstBlockDelimiterSize
      ensures bs == Blocks(root)
      ensures firstBlockDelimiterSize == FirstBlockDelimiterSize(bs)
    {
      bs := IterateBlocks(root);
      firstBlockDelimiterSize := if bs == [] then None else Some(bs[0].delimiter.to);
    }

    /**
      `update`: a transaction that changed the document re-indexes the new
      tree `root`; any other transaction leaves the list and the size as they were.
     */
    method Update(docChanged: bool, root: Node)
      requires Valid()
      requires docChanged ==> Indexable(root)
      modifies this
      ensures Valid()
      ensures docChanged ==> blocks == Blocks(root)
      ensures !docChanged ==> blocks == old(blocks) && firstBlockDelimiterSize == old(firstBlockDelimiterSize)
    {
      if docChanged {
        blocks := GetBlocks(root);
      }
    }
  }
}
