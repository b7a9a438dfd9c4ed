/**
  Relative line numbers for the gutter: a line is numbered from 1 within the
  first block whose content contains the line's start, and gets a blank label
  when no block's content does or when the line is past the document's end.
 */
module LineNumbers {
  import opened Wrappers
  import opened NoteTree

  /** A document as the gutter sees it: the offset where each line starts, and its length. */
  datatype Text = Text(lineStarts: seq<nat>, length: nat)

  /** The first line starts at 0, lines start at increasing offsets, all within the document. */
  ghost predicate ValidText(t: Text)
  {
    |t.lineStarts| >= 1 && t.lineStarts[0] == 0 &&
    (forall i, j :: 0 <= i < j < |t.lineStarts| ==> t.lineStarts[i] < t.lineStarts[j]) &&
    (forall i :: 0 <= i < |t.lineStarts| ==> t.lineStarts[i] <= t.length)
  }

  /** `doc.lines` */
  function Lines(t: Text): nat
  {
    |t.lineStarts|
  }

  /** `doc.line(n).from` */
  function LineStart(t: Text, n: int): nat
    requires 1 <= n <= Lines(t)
  {
    t.lineStarts[n - 1]
  }

  function LineAtFrom(t: Text, pos: nat, n: nat): (r: nat)
    requires 1 <= n <= Lines(t) && LineStart(t, n) <= pos
    ensures n <= r <= Lines(t) && LineStart(t, r) <= pos
    ensures r < Lines(t) ==> pos < LineStart(t, r + 1)
    decreases Lines(t) - n
  {
    if n == Lines(t) || pos < LineStart(t, n + 1) then n else LineAtFrom(t, pos, n + 1)
  }

  /** `doc.lineAt(pos).number`: the line that holds offset `pos`. */
  function LineAt(t: Text, pos: nat): (n: nat)
    requires ValidText(t) && pos <= t.length
    ensures 1 <= n <= Lines(t) && LineStart(t, n) <= pos
    ensures n < Lines(t) ==> pos < LineStart(t, n + 1)
  {
    LineAtFrom(t, pos, 1)
  }

  /** The line found for the start of line `n` is line `n` itself. */
  lemma LineAtLineStart(t: Text, n: nat)
    requires ValidText(t) && 1 <= n <= Lines(t)
    ensures LineAt(t, LineStart(t, n)) == n
  {
  }

  /** Later offsets lie on the same line or a later one. */
  lemma LineAtMonotone(t: Text, a: nat, b: nat)
    requires ValidText(t) && a <= b <= t.length
    ensures LineAt(t, a) <= LineAt(t, b)
  {
  }

  /** The `find` test: both bounds inclusive. */
  predicate ContentContains(b: Block, off: nat)
  {
    b.content.from <= off && off <= b.content.to
  }

  /** `k` is the first block whose content contains `off`. */
  ghost predicate FirstContaining(blocks: seq<Block>, off: nat, k: nat)
  {
    k < |blocks| && ContentContains(blocks[k], off) &&
    forall j :: 0 <= j < k ==> !ContentContains(blocks[j], off)
  }

  function FindFrom(blocks: seq<Block>, off: nat, i: nat): (r: Option<nat>)
    requires i <= |blocks|
    requires forall j :: 0 <= j < i ==> !ContentContains(blocks[j], off)
    ensures r.Some? ==> FirstContaining(blocks, off, r.value)
    ensures r.None? ==> forall j :: 0 <= j < |blocks| ==> !ContentContains(blocks[j], off)
    decreases |blocks| - i
  {
    if i == |blocks| then None
    else if ContentContains(blocks[i], off) then Some(i)
    else FindFrom(blocks, off, i + 1)
  }

  /** `blocks.find(...)`, as the index of the block found. */
  function FindBlock(blocks: seq<Block>, off: nat): (r: Option<nat>)
    ensures r.Some? ==> FirstContaining(blocks, off, r.value)
    ensures r.None? ==> forall j :: 0 <= j < |blocks| ==> !ContentContains(blocks[j], off)
  {
    FindFrom(blocks, off, 0)
  }

  /** A gutter label: a number, or the empty string. */
  datatype Label = Blank | Number(n: int)

  /** `formatNumber(lineNo, state)`; the gutter asks only for lines numbered from 1. */
  function FormatNumber(lineNo: int, t: Text, blocks: seq<Block>): (r: Label)
    requires ValidText(t) && 1 <= lineNo
    ensures r.Number? <==>
      lineNo <= Lines(t) && exists k :: 0 <= k < |blocks| && ContentContains(blocks[k], LineStart(t, lineNo))
    ensures r.Number? ==> r.n >= 1
    ensures r.Number? ==> exists k: nat ::
      (FirstContaining(blocks, LineStart(t, lineNo), k) &&
       r.n == lineNo - LineAt(t, blocks[k].content.from) + 1)
  {
    if Lines(t) >= lineNo then
      var lineOffset := LineStart(t, lineNo);
      match FindBlock(blocks, lineOffset)
      case Some(k) =>
        LineAtMonotone(t, blocks[k].content.from, lineOffset);
        LineAtLineStart(t, lineNo);
        Number(lineNo - LineAt(t, blocks[k].content.from) + 1)
      case None => Blank
    else Blank
  }

  // ---------------------------------------------------------------------
  // Numbering over a block list that segments the document.
  // ---------------------------------------------------------------------

  /**
    Each block's content starts where its non-empty delimiter ends, and the
    next block's delimiter starts where the content ends.
   */
  ghost predicate Segmentation(blocks: seq<Block>)
  {
    (forall i :: 0 <= i < |blocks| ==>
      blocks[i].delimiter.from < blocks[i].delimiter.to == blocks[i].content.from <= blocks[i].content.to) &&
    (forall i :: 0 <= i < |blocks| - 1 ==> blocks[i].content.to == blocks[i + 1].delimiter.from)
  }

  lemma {:induction false} EarlierContentEndsBefore(blocks: seq<Block>, j: nat, k: nat)
    requires Segmentation(blocks) && j < k < |blocks|
    ensures blocks[j].content.to <= blocks[k].delimiter.from
    decreases k - j
  {
    if j + 1 < k {
      EarlierContentEndsBefore(blocks, j + 1, k);
      assert blocks[j].content.to == blocks[j + 1].delimiter.from;
    }
  }

  /** A line that starts strictly inside a delimiter gets no number. */
  lemma DelimiterLineBlank(t: Text, blocks: seq<Block>, lineNo: int, k: nat)
    requires ValidText(t) && 1 <= lineNo <= Lines(t)
    requires Segmentation(blocks) && k < |blocks|
    requires blocks[k].delimiter.from < LineStart(t, lineNo) < blocks[k].delimiter.to
    ensures FormatNumber(lineNo, t, blocks) == Blank
  {
    var off := LineStart(t, lineNo);
    forall j | 0 <= j < |blocks|
      ensures !ContentContains(blocks[j], off)
    {
      if j < k {
        EarlierContentEndsBefore(blocks, j, k);
      } else if k < j {
        EarlierContentEndsBefore(blocks, k, j);
      }
    }
  }

  /** When the first delimiter starts the document, the first line gets no number. */
  lemma FirstLineBlank(t: Text, blocks: seq<Block>)
    requires ValidText(t) && Segmentation(blocks)
    requires blocks != [] && blocks[0].delimiter.from == 0
    ensures FormatNumber(1, t, blocks) == Blank
  {
  }

  /** If `off` lies in the content of block `k`, no earlier block's content contains it. */
  lemma FirstContainingInSegmentation(blocks: seq<Block>, off: nat, k: nat)
    requires Segmentation(blocks) && k < |blocks| && ContentContains(blocks[k], off)
    ensures FirstContaining(blocks, off, k)
  {
    forall j | 0 <= j < k
      ensures !ContentContains(blocks[j], off)
    {
      EarlierContentEndsBefore(blocks, j, k);
    }
  }

  /** The line on which a block's content starts is numbered 1. */
  lemma ContentStartLineIsOne(t: Text, blocks: seq<Block>, lineNo: int, k: nat)
    requires ValidText(t) && 1 <= lineNo <= Lines(t)
    requires Segmentation(blocks) && k < |blocks|
    requires LineStart(t, lineNo) == blocks[k].content.from
    ensures FormatNumber(lineNo, t, blocks) == Number(1)
  {
    FirstContainingInSegmentation(blocks, LineStart(t, lineNo), k);
    LineAtLineStart(t, lineNo);
  }

  /** Within one block, each line's number is one more than the previous line's. */
  lemma NextLineCountsOn(t: Text, blocks: seq<Block>, lineNo: int, k: nat)
    requires ValidText(t) && 1 <= lineNo && lineNo + 1 <= Lines(t)
    requires Segmentation(blocks) && k < |blocks|
    requires blocks[k].content.from <= LineStart(t, lineNo)
    requires LineStart(t, lineNo + 1) <= blocks[k].content.to
    ensures FormatNumber(lineNo, t, blocks).Number?
    ensures FormatNumber(lineNo + 1, t, blocks) == Number(FormatNumber(lineNo, t, blocks).n + 1)
  {
    var a, b := LineStart(t, lineNo), LineStart(t, lineNo + 1);
    assert a < b;
    FirstContainingInSegmentation(blocks, a, k);
    FirstContainingInSegmentation(blocks, b, k);
    var first := LineAt(t, blocks[k].content.from);
    assert FindBlock(blocks, a) == Some(k);
    assert FindBlock(blocks, b) == Some(k);
    assert FormatNumber(lineNo, t, blocks) == Number(lineNo - first + 1);
    assert FormatNumber(lineNo + 1, t, blocks) == Number(lineNo + 1 - first + 1);
  }
}
