/**
  The block indexer: a syntax tree of a note document is walked top-down;
  `Document` and `Note` nodes are descended into, each `NoteDelimiter` that is
  reached records one block (its own range paired with the range of its next
  sibling, the content node) and is not descended into, and every other node is
  skipped together with its subtree.
 */
module NoteTree {

  /** The node kinds the indexer tells apart; every other grammar node is `Other`. */
  datatype Kind = Document | Note | NoteDelimiter | Other

  /** A span of document offsets. */
  datatype Range = Range(from: nat, to: nat)

  /** A syntax tree node with its children in document order. */
  datatype Node = Node(kind: Kind, range: Range, children: seq<Node>)

  /** One note: the delimiter that introduces it and the content node after it. */
  datatype Block = Block(delimiter: Range, content: Range)

  /** What the `enter` callback decides for a node. */
  datatype Visit = Descend | Record | Skip

  function Enter(k: Kind): Visit
  {
    match k
    case Document => Descend
    case Note => Descend
    case NoteDelimiter => Record
    case Other => Skip
  }

  /** Every delimiter the walk over the forest `cs` reaches has a next sibling. */
  predicate IndexableSeq(cs: seq<Node>)
    decreases cs
  {
    cs == [] ||
    ((match Enter(cs[0].kind)
      case Descend => IndexableSeq(cs[0].children)
      case Record => |cs| > 1
      case Skip => true)
     && IndexableSeq(cs[1..]))
  }

  /**
    The tree can be indexed: the walk never meets a delimiter without a
    content node after it (the root itself has no siblings).
   */
  predicate Indexable(root: Node)
  {
    IndexableSeq([root])
  }

  /** The blocks recorded by walking the forest `cs` in pre-order. */
  function WalkSeq(cs: seq<Node>): seq<Block>
    requires IndexableSeq(cs)
    decreases cs, 1
  {
    if cs == [] then [] else EnterFirst(cs) + WalkSeq(cs[1..])
  }

  /**
    What entering the first node of `cs` records: the blocks of its subtree
    for Document and Note, one block for a delimiter (whose content node is
    its next sibling, `cs[1]`), nothing otherwise.
   */
  function EnterFirst(cs: seq<Node>): seq<Block>
    requires cs != [] && IndexableSeq(cs)
    decreases cs, 0
  {
    var n := cs[0];
    match Enter(n.kind)
    case Descend => WalkSeq(n.children)
    case Record => [Block(n.range, cs[1].range)]
    case Skip => []
  }

  /** The block list of a document whose syntax tree is `root`. */
  function Blocks(root: Node): seq<Block>
    requires Indexable(root)
  {
    WalkSeq([root])
  }

  /** One step of the walk: enter the first node of `cs`, then go on with its siblings. */
  lemma WalkStep(cs: seq<Node>)
    requires cs != [] && IndexableSeq(cs)
    ensures IndexableSeq(cs[1..])
    ensures WalkSeq(cs) == EnterFirst(cs) + WalkSeq(cs[1..])
    ensures Enter(cs[0].kind) == Descend ==>
      IndexableSeq(cs[0].children) && EnterFirst(cs) == WalkSeq(cs[0].children)
    ensures Enter(cs[0].kind) == Record ==>
      |cs| > 1 && EnterFirst(cs) == [Block(cs[0].range, cs[1].range)]
    ensures Enter(cs[0].kind) == Skip ==> EnterFirst(cs) == []
  {
  }

  // ---------------------------------------------------------------------
  // The walk as the parser library runs it, with the enter callback
  // pushing onto `blocks`: a cursor moves along each sibling list and goes
  // down into the children of the nodes the callback accepts.
  // ---------------------------------------------------------------------

  method VisitSiblings(cs: seq<Node>) returns (blocks: seq<Block>)
    requires IndexableSeq(cs)
    ensures blocks == WalkSeq(cs)
    decreases cs
  {
    blocks := [];
    var i := 0;
    while i < |cs|
      invariant 0 <= i <= |cs|
      invariant IndexableSeq(cs[i..])
      invariant blocks + WalkSeq(cs[i..]) == WalkSeq(cs)
    {
      var n := cs[i];
      WalkStep(cs[i..]);
      assert cs[i..][1..] == cs[i + 1..];
      var entered: seq<Block>;
      match Enter(n.kind) {
        case Descend =>
          entered := VisitSiblings(n.children);
        case Record =>
          entered := [Block(n.range, cs[i + 1].range)];
        case Skip =>
          entered := [];
      }
      assert entered == EnterFirst(cs[i..]);
      blocks := blocks + entered;
      i := i + 1;
    }
    assert cs[i..] == [];
  }

  /** `getBlocks` without its side effect: the blocks in the order the walk meets them. */
  method IterateBlocks(root: Node) returns (blocks: seq<Block>)
    requires Indexable(root)
    ensures blocks == Blocks(root)
  {
    blocks := VisitSiblings([root]);
  }

  // ---------------------------------------------------------------------
  // Which blocks the walk records: exactly one per delimiter reached
  // through Document/Note nodes only.
  // ---------------------------------------------------------------------

  /**
    `p` is a path of child indices from the forest `cs` to a delimiter whose
    every ancestor on the path is descended into, and `b` pairs the
    delimiter's range with its next sibling's range.
   */
  ghost predicate RecordedAt(cs: seq<Node>, p: seq<nat>, b: Block)
    decreases p
  {
    |p| > 0 && p[0] < |cs| &&
    if |p| == 1 then
      Enter(cs[p[0]].kind) == Record && p[0] + 1 < |cs| &&
      b == Block(cs[p[0]].range, cs[p[0] + 1].range)
    else
      Enter(cs[p[0]].kind) == Descend && RecordedAt(cs[p[0]].children, p[1..], b)
  }

  /** Some reached delimiter of the forest `cs` records `b`. */
  ghost predicate Recorded(cs: seq<Node>, b: Block)
  {
    exists p :: RecordedAt(cs, p, b)
  }

  lemma ShiftRecorded(cs: seq<Node>, b: Block)
    requires cs != [] && Recorded(cs[1..], b)
    ensures Recorded(cs, b)
  {
    var q :| RecordedAt(cs[1..], q, b);
    var p := [q[0] + 1] + q[1..];
    assert p[1..] == q[1..];
    assert RecordedAt(cs, p, b);
  }

  lemma UnshiftRecorded(cs: seq<Node>, p: seq<nat>, b: Block)
    requires RecordedAt(cs, p, b) && p[0] > 0
    ensures RecordedAt(cs[1..], [p[0] - 1] + p[1..], b)
  {
    var q := [p[0] - 1] + p[1..];
    assert q[1..] == p[1..];
  }

  lemma {:induction false} WalkSeqSound(cs: seq<Node>)
    requires IndexableSeq(cs)
    ensures forall b :: b in WalkSeq(cs) ==> Recorded(cs, b)
    decreases cs, 1
  {
    if cs != [] {
      WalkStep(cs);
      WalkSeqSound(cs[1..]);
      EnterFirstSound(cs);
      forall b | b in WalkSeq(cs[1..])
        ensures Recorded(cs, b)
      {
        ShiftRecorded(cs, b);
      }
    }
  }

  lemma {:induction false} EnterFirstSound(cs: seq<Node>)
    requires cs != [] && IndexableSeq(cs)
    ensures forall b :: b in EnterFirst(cs) ==> Recorded(cs, b)
    decreases cs, 0
  {
    WalkStep(cs);
    var n := cs[0];
    if Enter(n.kind) == Descend {
      WalkSeqSound(n.children);
      forall b | b in EnterFirst(cs)
        ensures Recorded(cs, b)
      {
        var q :| RecordedAt(n.children, q, b);
        var p := [0] + q;
        assert p[1..] == q;
        assert RecordedAt(cs, p, b);
      }
    } else if Enter(n.kind) == Record {
      assert RecordedAt(cs, [0], EnterFirst(cs)[0]);
    }
  }

  lemma {:induction false} WalkSeqComplete(cs: seq<Node>, p: seq<nat>, b: Block)
    requires IndexableSeq(cs) && RecordedAt(cs, p, b)
    ensures b in WalkSeq(cs)
    decreases cs
  {
    WalkStep(cs);
    if p[0] > 0 {
      UnshiftRecorded(cs, p, b);
      WalkSeqComplete(cs[1..], [p[0] - 1] + p[1..], b);
    } else if |p| > 1 {
      WalkSeqComplete(cs[0].children, p[1..], b);
    }
  }

  /**
    A block is in the list exactly when some delimiter reached through
    Document/Note nodes alone records it; delimiters below any other node,
    and anything below a delimiter, record nothing.
   */
  lemma BlocksAreReachedDelimiters(root: Node)
    requires Indexable(root)
    ensures forall b :: b in Blocks(root) <==> Recorded([root], b)
  {
    WalkSeqSound([root]);
    forall b | Recorded([root], b)
      ensures b in Blocks(root)
    {
      var p :| RecordedAt([root], p, b);
      WalkSeqComplete([root], p, b);
    }
  }

  // ---------------------------------------------------------------------
  // Subtrees that are not descended into are never visited.
  // ---------------------------------------------------------------------

  /** The forest with the children of every node the walk does not descend into dropped. */
  function PruneSeq(cs: seq<Node>): (r: seq<Node>)
    decreases cs
    ensures |r| == |cs|
    ensures forall i :: 0 <= i < |cs| ==> r[i].kind == cs[i].kind && r[i].range == cs[i].range
    ensures forall i :: 0 <= i < |cs| && Enter(cs[i].kind) != Descend ==> r[i].children == []
  {
    if cs == [] then []
    else
      var n := cs[0];
      var kids := if Enter(n.kind) == Descend then PruneSeq(n.children) else [];
      [Node(n.kind, n.range, kids)] + PruneSeq(cs[1..])
  }

  lemma {:induction false} PruneKeepsWalk(cs: seq<Node>)
    requires IndexableSeq(cs)
    ensures IndexableSeq(PruneSeq(cs)) && WalkSeq(PruneSeq(cs)) == WalkSeq(cs)
    decreases cs
  {
    if cs != [] {
      var n := cs[0];
      var r := PruneSeq(cs);
      PruneKeepsWalk(cs[1..]);
      assert r[1..] == PruneSeq(cs[1..]);
      if Enter(n.kind) == Descend {
        PruneKeepsWalk(n.children);
        assert r[0].children == PruneSeq(n.children);
      }
    }
  }

  /**
    The block list depends only on the pruned tree: trees that differ only
    below nodes the walk does not descend into (including below delimiters)
    have the same blocks.
   */
  lemma UndescendedSubtreesIgnored(root: Node, other: Node)
    requires Indexable(root) && Indexable(other)
    requires PruneSeq([root]) == PruneSeq([other])
    ensures Blocks(root) == Blocks(other)
  {
    PruneKeepsWalk([root]);
    PruneKeepsWalk([other]);
  }

  // ---------------------------------------------------------------------
  // For a tree whose nodes nest and follow each other in the document,
  // the blocks come in document order.
  // ---------------------------------------------------------------------

  /**
    Every node of the forest lies in [lo, hi], inside its parent, and after
    its previous sibling.
   */
  ghost predicate PositionedSeq(cs: seq<Node>, lo: nat, hi: nat)
    decreases cs
  {
    cs == [] ||
    (lo <= cs[0].range.from <= cs[0].range.to <= hi &&
     PositionedSeq(cs[0].children, cs[0].range.from, cs[0].range.to) &&
     PositionedSeq(cs[1..], cs[0].range.to, hi))
  }

  ghost predicate Positioned(root: Node)
  {
    PositionedSeq([root], root.range.from, root.range.to)
  }

  /** Each block lies in [lo, hi] and its delimiter ends before its content starts. */
  ghost predicate BlocksWithin(bs: seq<Block>, lo: nat, hi: nat)
  {
    forall i :: 0 <= i < |bs| ==>
      lo <= bs[i].delimiter.from <= bs[i].delimiter.to <= bs[i].content.from <= bs[i].content.to <= hi
  }

  /** Delimiters follow each other without overlapping. */
  ghost predicate DelimitersOrdered(bs: seq<Block>)
  {
    forall i, j :: 0 <= i < j < |bs| ==> bs[i].delimiter.to <= bs[j].delimiter.from
  }

  lemma PositionedWithin(cs: seq<Node>, lo: nat, hi: nat)
    requires PositionedSeq(cs, lo, hi)
    ensures forall i :: 0 <= i < |cs| ==> lo <= cs[i].range.from <= cs[i].range.to <= hi
    decreases cs
  {
    if cs != [] {
      PositionedWithin(cs[1..], cs[0].range.to, hi);
      assert forall i :: 1 <= i < |cs| ==> cs[i] == cs[1..][i - 1];
    }
  }

  lemma ConcatOrdered(head: seq<Block>, tail: seq<Block>, lo: nat, mid: nat, hi: nat)
    requires BlocksWithin(head, lo, hi) && BlocksWithin(tail, lo, hi)
    requires DelimitersOrdered(head) && DelimitersOrdered(tail)
    requires forall i :: 0 <= i < |head| ==> head[i].delimiter.to <= mid
    requires forall j :: 0 <= j < |tail| ==> mid <= tail[j].delimiter.from
    ensures BlocksWithin(head + tail, lo, hi) && DelimitersOrdered(head + tail)
  {
    var all := head + tail;
    assert forall i :: 0 <= i < |head| ==> all[i] == head[i];
    assert forall j :: |head| <= j < |all| ==> all[j] == tail[j - |head|];
  }

  lemma {:induction false} WalkSeqOrdered(cs: seq<Node>, lo: nat, hi: nat)
    requires IndexableSeq(cs) && PositionedSeq(cs, lo, hi)
    ensures BlocksWithin(WalkSeq(cs), lo, hi) && DelimitersOrdered(WalkSeq(cs))
    decreases cs, 1
  {
    if cs != [] {
      var n := cs[0];
      var tail := WalkSeq(cs[1..]);
      WalkSeqOrdered(cs[1..], n.range.to, hi);
      assert BlocksWithin(tail, lo, hi);
      EnterFirstOrdered(cs, lo, hi);
      ConcatOrdered(EnterFirst(cs), tail, lo, n.range.to, hi);
    }
  }

  lemma {:induction false} EnterFirstOrdered(cs: seq<Node>, lo: nat, hi: nat)
    requires cs != [] && IndexableSeq(cs) && PositionedSeq(cs, lo, hi)
    ensures BlocksWithin(EnterFirst(cs), lo, hi) && DelimitersOrdered(EnterFirst(cs))
    ensures forall i :: 0 <= i < |EnterFirst(cs)| ==> EnterFirst(cs)[i].delimiter.to <= cs[0].range.to
    decreases cs, 0
  {
    var n := cs[0];
    match Enter(n.kind) {
      case Descend =>
        WalkSeqOrdered(n.children, n.range.from, n.range.to);
      case Record =>
        PositionedWithin(cs[1..], n.range.to, hi);
        assert cs[1] == cs[1..][0];
      case Skip =>
    }
  }

  /**
    For a positioned tree the blocks lie inside the root, every delimiter
    ends before its content starts, and the delimiters come in document
    order without overlapping.
   */
  lemma BlocksInDocumentOrder(root: Node)
    requires Indexable(root) && Positioned(root)
    ensures BlocksWithin(Blocks(root), root.range.from, root.range.to)
    ensures DelimitersOrdered(Blocks(root))
  {
    WalkSeqOrdered([root], root.range.from, root.range.to);
  }
}
