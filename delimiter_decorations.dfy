/**
  The delimiter decorations: every delimiter is replaced by a block widget,
  except for its last character and, unless it starts the document, its
  first character, so that the cursor can stand right next to real text.
 */
module DelimiterDecorations {
  import opened NoteTree

  /** A replaced stretch [from, to) of the document; `to` may fall below `from`. */
  datatype Span = Span(from: int, to: int)

  predicate Covers(s: Span, x: int)
  {
    s.from <= x < s.to
  }

  /**
    A position of the delimiter `d` that its widget hides: any but the last
    one and, when the delimiter does not start at offset 0, the first one.
   */
  predicate Hidden(d: Range, x: int)
  {
    d.from <= x < d.to && x != d.to - 1 && (d.from != 0 ==> x != d.from)
  }

  /** The range handed to `deco.range` for the delimiter `d`. */
  function ReplacedSpan(d: Range): (s: Span)
    ensures forall x :: Covers(s, x) <==> Hidden(d, x)
    ensures s.from == 0 <==> d.from == 0
    ensures d.from <= s.from && s.to < d.to
    ensures (d.from == 0 && 1 <= d.to) || d.from + 2 <= d.to ==> s.from <= s.to
  {
    Span(if d.from == 0 then 0 else d.from + 1, d.to - 1)
  }

  /** One replacement per block, in block order. */
  function Decorations(blocks: seq<Block>): (ds: seq<Span>)
    ensures |ds| == |blocks|
    ensures forall i :: 0 <= i < |blocks| ==> ds[i] == ReplacedSpan(blocks[i].delimiter)
  {
    if blocks == [] then [] else [ReplacedSpan(blocks[0].delimiter)] + Decorations(blocks[1..])
  }

  /** `decorate`: walks the block list and pushes one widget range per block. */
  method Decorate(blocks: seq<Block>) returns (widgets: seq<Span>)
    ensures |widgets| == |blocks|
    ensures forall i :: 0 <= i < |blocks| ==> widgets[i] == ReplacedSpan(blocks[i].delimiter)
  {
    widgets := [];
    for i := 0 to |blocks|
      invariant |widgets| == i
      invariant forall k :: 0 <= k < i ==> widgets[k] == ReplacedSpan(blocks[k].delimiter)
    {
      var delimiter := blocks[i].delimiter;
      widgets := widgets + [Span(if delimiter.from == 0 then delimiter.from else delimiter.from + 1, delimiter.to - 1)];
    }
  }

  /**
    When the delimiters follow each other without overlapping, each replaced
    span ends before the next one starts. The order of the starts that
    `RangeSet.of` needs is `DecorationsSortedPositioned`.
   */
  lemma DecorationsInOrder(blocks: seq<Block>)
    requires DelimitersOrdered(blocks)
    ensures forall i, j :: 0 <= i < j < |blocks| ==> Decorations(blocks)[i].to < Decorations(blocks)[j].from
  {
    var ds := Decorations(blocks);
    forall i, j | 0 <= i < j < |blocks|
      ensures ds[i].to < ds[j].from
    {
      assert blocks[i].delimiter.to <= blocks[j].delimiter.from;
    }
  }

  /**
    For the blocks of a positioned tree the replaced spans start in block
    order, so `RangeSet.of` receives them sorted by their start.
   */
  lemma DecorationsSortedPositioned(root: Node)
    requires Indexable(root) && Positioned(root)
    ensures forall i, j :: 0 <= i < j < |Blocks(root)| ==>
      Decorations(Blocks(root))[i].from <= Decorations(Blocks(root))[j].from
  {
    BlocksInDocumentOrder(root);
  }

  /** The `StateField` holding the decorations: rebuilt only when the document changed. */
  class DecorationField {
    var widgets: seq<Span>

    constructor Create(blocks: seq<Block>)
      ensures widgets == Decorations(blocks)
    {
      var ws := Decorate(blocks);
      widgets := ws;
    }

    method Update(docChanged: bool, blocks: seq<Block>)
      modifies this
      ensures docChanged ==> widgets == Decorations(blocks)
      ensures !docChanged ==> widgets == old(widgets)
    {
      if docChanged {
        widgets := Decorate(blocks);
      }
    }
  }
}
