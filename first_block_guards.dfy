/**
  The two guards around the first block's delimiter, both driven by the
  published size P of that delimiter: a change filter that keeps ordinary
  transactions out of [0, P], and a transaction filter that moves every
  selection endpoint before P up to P.
 */
module FirstBlockGuards {
  import opened Wrappers
  import opened NoteTree
  import opened BlockStateField

  /** JavaScript truthiness of the published size: defined and not 0. */
  predicate Truthy(p: Option<nat>)
  {
    p.Some? && p.value != 0
  }

  /** What a change filter answers: let everything through, or suppress changes in [from, to]. */
  datatype ChangeFilterResult = AllowAll | Suppress(from: nat, to: nat)

  /**
    `preventFirstBlockFromBeingDeleted`: `initialData` says whether the
    transaction carries the INITIAL_DATA annotation.
   */
  function PreventFirstBlockFromBeingDeleted(initialData: bool, p: Option<nat>): (r: ChangeFilterResult)
    ensures r.Suppress? <==> !initialData && Truthy(p)
    ensures r.Suppress? ==> r.from == 0 && r.to == p.value
  {
    if !initialData && Truthy(p) then Suppress(0, p.value) else AllowAll
  }

  /** Whether the filter's answer suppresses changes at offset `o`. */
  predicate SuppressesAt(r: ChangeFilterResult, o: nat)
  {
    r.Suppress? && r.from <= o <= r.to
  }

  /**
    Once a document with a non-empty first delimiter has been indexed, every
    ordinary transaction is kept out of that whole delimiter and of nothing
    past it, while a transaction loading the initial data is not filtered.
   */
  lemma FirstDelimiterProtected(blocks: seq<Block>, initialData: bool, o: nat)
    requires blocks != [] && blocks[0].delimiter.to > 0
    ensures SuppressesAt(PreventFirstBlockFromBeingDeleted(initialData, FirstBlockDelimiterSize(blocks)), o)
      <==> !initialData && o <= blocks[0].delimiter.to
  {
  }

  /** With no blocks, or a first delimiter ending at 0, nothing is suppressed. */
  lemma NoBlocksNoFilter(blocks: seq<Block>, initialData: bool)
    requires blocks == [] || blocks[0].delimiter.to == 0
    ensures PreventFirstBlockFromBeingDeleted(initialData, FirstBlockDelimiterSize(blocks)) == AllowAll
  {
  }

  /** A selection range as the transaction filter sees it. */
  datatype SelectionRange = SelectionRange(from: nat, to: nat)

  /** One selection range after the filter, with P the published size. */
  function Clamped(r: SelectionRange, p: Option<nat>): (c: SelectionRange)
    ensures !Truthy(p) ==> c == r
    ensures Truthy(p) ==> p.value <= c.from && p.value <= c.to
    ensures Truthy(p) && p.value <= r.from ==> c.from == r.from
    ensures Truthy(p) && p.value <= r.to ==> c.to == r.to
    ensures Truthy(p) && r.from < p.value ==> c.from == p.value
    ensures Truthy(p) && r.to < p.value ==> c.to == p.value
    ensures r.from <= r.to ==> c.from <= c.to
  {
    if !Truthy(p) then r
    else SelectionRange(if r.from < p.value then p.value else r.from,
                        if r.to < p.value then p.value else r.to)
  }

  /**
    `preventSelectionBeforeFirstBlock`: overwrites the endpoints of the
    transaction's selection ranges in place. A transaction that sets no
    selection has no ranges to visit.
   */
  method PreventSelectionBeforeFirstBlock(ranges: array<SelectionRange>, p: Option<nat>)
    modifies ranges
    ensures forall i :: 0 <= i < ranges.Length ==> ranges[i] == Clamped(old(ranges[i]), p)
  {
    if !Truthy(p) {
      return;
    }
    var size := p.value;
    for i := 0 to ranges.Length
      invariant forall k :: 0 <= k < i ==> ranges[k] == Clamped(old(ranges[k]), p)
      invariant forall k :: i <= k < ranges.Length ==> ranges[k] == old(ranges[k])
    {
      var range := ranges[i];
      if range.from < size {
        range := range.(from := size);
      }
      if range.to < size {
        range := range.(to := size);
      }
      ranges[i] := range;
    }
  }

  /** Clamping a range that the filter already clamped changes nothing. */
  lemma ClampIdempotent(r: SelectionRange, p: Option<nat>)
    ensures Clamped(Clamped(r, p), p) == Clamped(r, p)
  {
  }

  /**
    After the filter every endpoint lies at or after the first delimiter's
    end; in particular a cursor put at offset 0 lands right after it.
   */
  lemma SelectionAfterFirstDelimiter(blocks: seq<Block>, r: SelectionRange)
    requires blocks != [] && blocks[0].delimiter.to > 0
    ensures blocks[0].delimiter.to <= Clamped(r, FirstBlockDelimiterSize(blocks)).from
    ensures blocks[0].delimiter.to <= Clamped(r, FirstBlockDelimiterSize(blocks)).to
    ensures r == SelectionRange(0, 0) ==>
      Clamped(r, FirstBlockDelimiterSize(blocks)) == SelectionRange(blocks[0].delimiter.to, blocks[0].delimiter.to)
  {
  }
}
