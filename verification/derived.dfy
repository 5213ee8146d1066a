/**
 * The state derived from a composition for display (`DerivedState` in
 * proj/src/derived_state.rs) and its two lookups.
 */
module Derived {
  import opened Wrappers
  import opened Rows
  import opened Locations
  import opened Expansion
  import opened Flattening
  import opened Coalescing
  import opened Linking

  /** What is drawn for one fragment: its false row ranges, expanded rows, whether it is proved, and its tips. */
  datatype AnnotFrag = AnnotFrag(
    falseRowRanges: seq<FalseRowRange>,
    expRows: seq<ExpandedRow>,
    isProved: bool,
    linkGroups: FragLinkGroups)

  /** The numbers shown in the corner of the screen. */
  datatype DerivedStats = DerivedStats(partLen: nat, numFalseRows: nat, numFalseGroups: nat)

  datatype DerivedState = DerivedState(
    annotFrags: seq<AnnotFrag>,
    fragLinks: seq<FragLink>,
    stats: DerivedStats,
    partHeads: seq<Row>,
    stage: nat)

  /** `get_row`: the row of part `part` of expanded row `row` of fragment `frag`, or nothing if any index is out of range. */
  function GetRow(s: DerivedState, part: nat, frag: nat, row: nat): (r: Option<Row>)
    ensures r.Some? <==> (frag < |s.annotFrags| && row < |s.annotFrags[frag].expRows|
                          && part < |s.annotFrags[frag].expRows[row].rows|)
    ensures r.Some? ==> r.value == s.annotFrags[frag].expRows[row].rows[part]
  {
    if frag < |s.annotFrags| && row < |s.annotFrags[frag].expRows| && part < |s.annotFrags[frag].expRows[row].rows|
    then Some(s.annotFrags[frag].expRows[row].rows[part])
    else None
  }

  /** `get_part_head`: the `i`th part head, or nothing past the last part. */
  function GetPartHead(s: DerivedState, i: nat): (r: Option<Row>)
    ensures r.Some? <==> i < |s.partHeads|
    ensures r.Some? ==> r.value in s.partHeads && r.value == s.partHeads[i]
  {
    if i < |s.partHeads| then Some(s.partHeads[i]) else None
  }

  /** The derived state shows the fragments' expanded rows as they were generated. */
  ghost predicate ShowsRows(s: DerivedState, gen: seq<seq<ExpandedRow>>)
  {
    |s.annotFrags| == |gen| && forall i :: 0 <= i < |gen| ==> s.annotFrags[i].expRows == gen[i]
  }

  /**
   * The rows the truth prover compares are the rows the display shows: every
   * flattened entry is what `get_row` returns at its origin, and `get_row`
   * returns a row of a proved expanded row only at an origin that was flattened.
   */
  lemma GetRowFlattened(s: DerivedState, gen: seq<seq<ExpandedRow>>, o: RowOrigin, row: Row)
    requires ShowsRows(s, gen)
    ensures (o, row) in FragsOf(gen, |gen|) <==>
      GetRow(s, o.part, o.frag, o.row) == Some(row) && gen[o.frag][o.row].isProved
  {
    FlattenMembers(gen, o, row);
  }
}
