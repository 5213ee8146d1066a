/**
 * Coalescing false row groups into highlighted ranges
 * (`coalesce_false_row_groups` and `add_ranges` in proj/src/derived_state.rs).
 *
 * The false groups are sorted; a run of consecutive groups in which each group
 * is "adjacent" to the one before (same length, and at every position the same
 * fragment with the row one away) forms a meta-group, shown in one colour.
 * For each meta-group, each position gives one inclusive range of rows, from
 * the row of its first group to the row of its last group at that position.
 */
module Coalescing {
  import opened Wrappers
  import opened Orders
  import opened Locations

  /** Rows `start..=end` of one fragment, highlighted in colour `group`. */
  datatype FalseRowRange = FalseRowRange(start: nat, end: nat, group: nat)

  /** The ranges filed under each fragment index. */
  type Ranges = map<nat, seq<FalseRowRange>>

  /** The ranges of fragment `f`, or none if it has no entry (`remove(&f).unwrap_or_default()`). */
  function RangesOf(m: Ranges, f: nat): seq<FalseRowRange>
  {
    if f in m then m[f] else []
  }

  /** No fragment has an entry without ranges: entries are only made to push a range. */
  ghost predicate NoEmptyEntries(m: Ranges)
  {
    forall f :: f in m ==> m[f] != []
  }

  /** Same fragment, rows exactly one apart in either direction. */
  predicate NextTo(a: RowLocation, b: RowLocation)
  {
    a.frag == b.frag && (a.row == b.row + 1 || b.row == a.row + 1)
  }

  /** `is_adjacent_to_last`: equal lengths and, position by position, locations next to each other. */
  predicate Adjacent(g: seq<RowLocation>, h: seq<RowLocation>)
  {
    |g| == |h| && forall k :: 0 <= k < |g| ==> NextTo(g[k], h[k])
  }

  /** What `add_ranges` asserts of its two groups: equal lengths and the same fragment at each position. */
  predicate SameFrags(g: seq<RowLocation>, h: seq<RowLocation>)
  {
    |g| == |h| && forall k :: 0 <= k < |g| ==> g[k].frag == h[k].frag
  }

  /** The range between the rows of `s` and `e`, whichever comes first. */
  function RangeOf(s: RowLocation, e: RowLocation, id: nat): (r: FalseRowRange)
    ensures r.start <= r.end && r.group == id
    ensures r.start in {s.row, e.row} && r.end in {s.row, e.row}
    ensures s.row in {r.start, r.end} && e.row in {r.start, r.end}
  {
    FalseRowRange(Min(s.row, e.row), Max(s.row, e.row), id)
  }

  /** The ranges `add_ranges` files under fragment `f` from the first `n` pairs of locations. */
  function PairRanges(a: seq<RowLocation>, b: seq<RowLocation>, id: nat, f: nat, n: nat): seq<FalseRowRange>
    requires n <= |a| && n <= |b|
  {
    if n == 0 then []
    else PairRanges(a, b, id, f, n - 1) + (if a[n - 1].frag == f then [RangeOf(a[n - 1], b[n - 1], id)] else [])
  }

  /** The ranges filed under `f` are exactly those of the pairs whose locations lie in fragment `f`. */
  lemma {:induction false} PairRangesMembers(a: seq<RowLocation>, b: seq<RowLocation>, id: nat, f: nat, n: nat,
                                             r: FalseRowRange)
    requires n <= |a| && n <= |b|
    ensures r in PairRanges(a, b, id, f, n) <==> exists k :: 0 <= k < n && a[k].frag == f && r == RangeOf(a[k], b[k], id)
  {
    if n > 0 {
      PairRangesMembers(a, b, id, f, n - 1, r);
    }
  }

  /**
   * `add_ranges`: one range per pair of locations at the same position, filed
   * under the pair's fragment after the ranges already there.
   */
  method AddRanges(ranges: Ranges, start: seq<RowLocation>, end: seq<RowLocation>, id: nat) returns (ranges': Ranges)
    requires SameFrags(start, end)
    ensures forall f :: RangesOf(ranges', f) == RangesOf(ranges, f) + PairRanges(start, end, id, f, |start|)
    ensures NoEmptyEntries(ranges) ==> NoEmptyEntries(ranges')
  {
    ranges' := ranges;
    for k := 0 to |start|
      invariant forall f :: RangesOf(ranges', f) == RangesOf(ranges, f) + PairRanges(start, end, id, f, k)
      invariant NoEmptyEntries(ranges) ==> NoEmptyEntries(ranges')
    {
      var f := start[k].frag;
      ranges' := ranges'[f := RangesOf(ranges', f) + [RangeOf(start[k], end[k], id)]];
    }
  }

  /** Group `i` of the sorted list starts a meta-group: it is the first, or not adjacent to the one before. */
  predicate StartsMeta(gs: seq<seq<RowLocation>>, i: nat)
    requires i < |gs|
  {
    i == 0 || !Adjacent(gs[i - 1], gs[i])
  }

  /** Group `i` ends its meta-group: it is the last, or the next one is not adjacent to it. */
  predicate EndsMeta(gs: seq<seq<RowLocation>>, i: nat)
    requires i < |gs|
  {
    i == |gs| - 1 || !Adjacent(gs[i], gs[i + 1])
  }

  /** Where the meta-group of group `i` starts. */
  function MetaStart(gs: seq<seq<RowLocation>>, i: nat): (s: nat)
    requires i < |gs|
    ensures s <= i && StartsMeta(gs, s)
    ensures forall j :: s < j <= i ==> !StartsMeta(gs, j)
  {
    if StartsMeta(gs, i) then i else MetaStart(gs, i - 1)
  }

  /** The colour of group `i`: how many meta-groups start after the first one, up to `i`. */
  function MetaId(gs: seq<seq<RowLocation>>, i: nat): nat
    requires i < |gs|
  {
    if i == 0 then 0 else MetaId(gs, i - 1) + (if StartsMeta(gs, i) then 1 else 0)
  }

  /** The ranges filed under fragment `f` once the meta-groups ending among the first `n` groups are added. */
  function Filed(gs: seq<seq<RowLocation>>, n: nat, f: nat): seq<FalseRowRange>
    requires n <= |gs|
  {
    if n == 0 then []
    else
      var i := n - 1;
      var s := gs[MetaStart(gs, i)];
      Filed(gs, i, f) + (if EndsMeta(gs, i) then PairRanges(s, gs[i], MetaId(gs, i), f, Min(|s|, |gs[i]|)) else [])
  }

  /** Adjacent groups have the same shape, so every group of a meta-group has its first group's shape. */
  lemma {:induction false} MetaShape(gs: seq<seq<RowLocation>>, i: nat)
    requires i < |gs|
    ensures SameFrags(gs[MetaStart(gs, i)], gs[i])
  {
    if !StartsMeta(gs, i) {
      MetaShape(gs, i - 1);
      assert MetaStart(gs, i) == MetaStart(gs, i - 1);
    }
  }

  /** `ranges` holds exactly the ranges of the meta-groups ending among the first `n` groups. */
  ghost predicate FiledUpTo(ranges: Ranges, gs: seq<seq<RowLocation>>, n: nat)
    requires n <= |gs|
  {
    forall f :: RangesOf(ranges, f) == Filed(gs, n, f)
  }

  /** Adding the ranges of the meta-group that ends at group `i` files it. */
  lemma FiledClose(gs: seq<seq<RowLocation>>, i: nat, start: seq<RowLocation>, id: nat, ranges: Ranges, ranges': Ranges)
    requires i < |gs| && EndsMeta(gs, i) && FiledUpTo(ranges, gs, i)
    requires start == gs[MetaStart(gs, i)] && id == MetaId(gs, i) && |start| == |gs[i]|
    requires forall f :: RangesOf(ranges', f) == RangesOf(ranges, f) + PairRanges(start, gs[i], id, f, |start|)
    ensures FiledUpTo(ranges', gs, i + 1)
  {
  }

  /** `add_ranges` for the meta-group that ends at group `i`, from its first group to group `i`. */
  method CloseMeta(gs: seq<seq<RowLocation>>, i: nat, first: seq<RowLocation>, groupId: nat, ranges: Ranges)
    returns (ranges': Ranges)
    requires i < |gs| && EndsMeta(gs, i) && first == gs[MetaStart(gs, i)] && groupId == MetaId(gs, i)
    requires FiledUpTo(ranges, gs, i) && NoEmptyEntries(ranges)
    ensures FiledUpTo(ranges', gs, i + 1) && NoEmptyEntries(ranges')
  {
    MetaShape(gs, i);
    ranges' := AddRanges(ranges, first, gs[i], groupId);
    FiledClose(gs, i, first, groupId, ranges, ranges');
  }

  /** A group adjacent to the next one files nothing. */
  lemma FiledSkip(gs: seq<seq<RowLocation>>, i: nat, ranges: Ranges)
    requires i < |gs| && !EndsMeta(gs, i) && FiledUpTo(ranges, gs, i)
    ensures FiledUpTo(ranges, gs, i + 1)
  {
  }

  /**
   * The sweep over the sorted groups `gs` has looked at `gs[..i]`: `last` is
   * the last group, `first` the first group of the open meta-group, and the
   * ranges of every meta-group closed so far are filed.
   */
  ghost predicate MetaInv(gs: seq<seq<RowLocation>>, i: nat, first: seq<RowLocation>, last: seq<RowLocation>,
                          s: nat, groupId: nat, ranges: Ranges)
  {
    0 < i <= |gs| && last == gs[i - 1] && s == MetaStart(gs, i - 1) && first == gs[s]
    && groupId == MetaId(gs, i - 1) && FiledUpTo(ranges, gs, i - 1) && NoEmptyEntries(ranges)
  }

  lemma MetaInit(gs: seq<seq<RowLocation>>)
    requires gs != []
    ensures MetaInv(gs, 1, gs[0], gs[0], 0, 0, map[])
  {
  }

  /**
   * One step of the sweep of `coalesce_false_row_groups`: a group not adjacent
   * to the last one closes the open meta-group, whose ranges are added under
   * its id, and opens a new one with the next id.
   */
  method MetaStep(gs: seq<seq<RowLocation>>, i: nat, first: seq<RowLocation>, ghost s: nat, groupId: nat, ranges: Ranges)
    returns (first': seq<RowLocation>, ghost s': nat, groupId': nat, ranges': Ranges)
    requires 0 < i < |gs| && MetaInv(gs, i, first, gs[i - 1], s, groupId, ranges)
    ensures MetaInv(gs, i + 1, first', gs[i], s', groupId', ranges')
  {
    var last, group := gs[i - 1], gs[i];
    first', s', groupId', ranges' := first, s, groupId, ranges;
    if !Adjacent(last, group) {
      ranges' := CloseMeta(gs, i - 1, first, groupId, ranges);
      first' := group;
      s' := i;
      groupId' := groupId + 1;
    } else {
      FiledSkip(gs, i - 1, ranges);
    }
  }

  /**
   * The sweep of `coalesce_false_row_groups` over the sorted groups: a
   * meta-group is closed, and its ranges added, whenever a group is not
   * adjacent to the last one, and once more at the end.
   */
  method SweepMetaGroups(gs: seq<seq<RowLocation>>) returns (ranges: Ranges, groupId: nat)
    ensures groupId + 1 == GroupTotal(gs)
    ensures FiledUpTo(ranges, gs, |gs|) && NoEmptyEntries(ranges)
  {
    ranges := map[];
    groupId := 0;
    if gs != [] {
      var first, last := gs[0], gs[0];
      ghost var s := 0;
      MetaInit(gs);
      for i := 1 to |gs|
        invariant MetaInv(gs, i, first, last, s, groupId, ranges)
      {
        first, s, groupId, ranges := MetaStep(gs, i, first, s, groupId, ranges);
        last := gs[i];
      }
      ranges := CloseMeta(gs, |gs| - 1, first, groupId, ranges);
    }
  }

  /** The count `coalesce_false_row_groups` returns for the sorted groups `gs`: the last group's colour plus one. */
  function GroupTotal(gs: seq<seq<RowLocation>>): nat
  {
    if gs == [] then 1 else MetaId(gs, |gs| - 1) + 1
  }

  /**
   * `coalesce_false_row_groups`: sort the groups lexicographically, sweep
   * them into meta-groups, and return the ranges by fragment with the final
   * group id plus one.
   */
  method CoalesceFalseRowGroups(falseRows: seq<seq<RowLocation>>) returns (ranges: Ranges, numGroups: nat)
    ensures var gs := SortBy(falseRows, GroupLe());
      && numGroups == GroupTotal(gs)
      && FiledUpTo(ranges, gs, |gs|) && NoEmptyEntries(ranges)
  {
    var gs := SortBy(falseRows, GroupLe());
    var groupId;
    ranges, groupId := SweepMetaGroups(gs);
    numGroups := groupId + 1;
  }

  /** Range `r` is the one that the meta-group ending at group `i` files for its `k`th position, under `f`. */
  ghost predicate FiledBy(gs: seq<seq<RowLocation>>, i: nat, k: nat, f: nat, r: FalseRowRange)
  {
    i < |gs| && EndsMeta(gs, i)
    && var s := gs[MetaStart(gs, i)];
    k < |s| && k < |gs[i]| && s[k].frag == f && r == RangeOf(s[k], gs[i][k], MetaId(gs, i))
  }

  lemma {:induction false} FiledMembers(gs: seq<seq<RowLocation>>, n: nat, f: nat, r: FalseRowRange)
    requires n <= |gs|
    ensures r in Filed(gs, n, f) <==> exists i: nat, k: nat :: i < n && FiledBy(gs, i, k, f, r)
  {
    if n > 0 {
      var i := n - 1;
      var s := gs[MetaStart(gs, i)];
      FiledMembers(gs, i, f, r);
      var m := Min(|s|, |gs[i]|);
      PairRangesMembers(s, gs[i], MetaId(gs, i), f, m, r);
      if exists i': nat, k: nat :: i' < n && FiledBy(gs, i', k, f, r) {
        var i': nat, k: nat :| i' < n && FiledBy(gs, i', k, f, r);
        if i' == i {
          assert k < m && s[k].frag == f && r == RangeOf(s[k], gs[i][k], MetaId(gs, i));
        }
      }
      if r in Filed(gs, n, f) && r !in Filed(gs, i, f) {
        var k :| 0 <= k < m && s[k].frag == f && r == RangeOf(s[k], gs[i][k], MetaId(gs, i));
        assert FiledBy(gs, i, k, f, r);
      }
    }
  }

  /** Colours never decrease along the sorted groups, and never skip. */
  lemma {:induction false} MetaIdStep(gs: seq<seq<RowLocation>>, i: nat, j: nat)
    requires i <= j < |gs|
    ensures MetaId(gs, i) <= MetaId(gs, j) <= MetaId(gs, i) + (j - i)
    ensures MetaStart(gs, j) <= i ==> MetaId(gs, i) == MetaId(gs, j) && MetaStart(gs, i) == MetaStart(gs, j)
    decreases j - i
  {
    if i < j {
      MetaIdStep(gs, i, j - 1);
    }
  }

  /**
   * Every range `coalesce_false_row_groups` files runs forwards and carries a
   * colour below the returned count; it is the range of one position of one
   * meta-group, filed under that position's fragment.
   */
  lemma RangesWellFormed(gs: seq<seq<RowLocation>>, f: nat, r: FalseRowRange)
    requires r in Filed(gs, |gs|, f)
    ensures gs != [] && r.start <= r.end && r.group <= MetaId(gs, |gs| - 1)
    ensures exists i: nat, k: nat :: FiledBy(gs, i, k, f, r)
  {
    FiledMembers(gs, |gs|, f, r);
    var i: nat, k: nat :| i < |gs| && FiledBy(gs, i, k, f, r);
    MetaIdStep(gs, i, |gs| - 1);
  }

  /** The groups, up to group `n`, that start a meta-group. */
  ghost function StartsBelow(gs: seq<seq<RowLocation>>, n: nat): set<nat>
    requires n <= |gs|
  {
    set i | 0 <= i < n && StartsMeta(gs, i)
  }

  lemma {:induction false} MetaIdCountsStarts(gs: seq<seq<RowLocation>>, n: nat)
    requires 0 < n <= |gs|
    ensures MetaId(gs, n - 1) + 1 == |StartsBelow(gs, n)|
  {
    if n == 1 {
      assert StartsBelow(gs, 1) == {0};
    } else {
      MetaIdCountsStarts(gs, n - 1);
      if StartsMeta(gs, n - 1) {
        assert StartsBelow(gs, n) == StartsBelow(gs, n - 1) + {n - 1};
      } else {
        assert StartsBelow(gs, n) == StartsBelow(gs, n - 1);
      }
    }
  }

  /**
   * The returned count is the number of meta-groups, except that with no
   * false groups at all it is 1 (the final `group_id + 1` is taken in both cases).
   */
  lemma GroupCount(gs: seq<seq<RowLocation>>)
    ensures gs != [] ==> GroupTotal(gs) == |StartsBelow(gs, |gs|)|
    ensures gs == [] ==> GroupTotal(gs) == 1 && StartsBelow(gs, |gs|) == {}
  {
    if gs != [] {
      MetaIdCountsStarts(gs, |gs|);
    }
  }

  /** Colours are numbered from 0 with none skipped: every colour up to the last is a meta-group's. */
  lemma {:induction false} MetaIdsOnto(gs: seq<seq<RowLocation>>, i: nat, id: nat)
    requires i < |gs| && id <= MetaId(gs, i)
    ensures exists j: nat :: j <= i && StartsMeta(gs, j) && MetaId(gs, j) == id
  {
    if StartsMeta(gs, i) && MetaId(gs, i) == id {
    } else if i == 0 {
    } else {
      MetaIdsOnto(gs, i - 1, id);
    }
  }

  /** Where the meta-group of group `i` ends. */
  function MetaEnd(gs: seq<seq<RowLocation>>, i: nat): (e: nat)
    requires i < |gs|
    ensures i <= e < |gs| && EndsMeta(gs, e)
    ensures forall j :: i <= j < e ==> !EndsMeta(gs, j)
    ensures forall j :: i < j <= e ==> !StartsMeta(gs, j)
    decreases |gs| - i
  {
    if EndsMeta(gs, i) then i else MetaEnd(gs, i + 1)
  }

  /**
   * In a sorted list of groups, the first locations of a meta-group's groups
   * are consecutive rows of one fragment, one group after another.
   */
  lemma {:induction false} FirstRowsConsecutive(gs: seq<seq<RowLocation>>, i: nat)
    requires SortedBy(gs, GroupLe()) && i < |gs| && gs[i] != []
    ensures var s := gs[MetaStart(gs, i)];
      s != [] && s[0].frag == gs[i][0].frag && gs[i][0].row == s[0].row + (i - MetaStart(gs, i))
  {
    if !StartsMeta(gs, i) {
      var p, q := gs[i - 1], gs[i];
      assert Adjacent(p, q);
      assert NextTo(p[0], q[0]);
      assert LexLe(p, q, LocLe);
      FirstRowsConsecutive(gs, i - 1);
    }
  }

  /** Group `i` and the last group of its meta-group share its start and colour. */
  lemma SameMeta(gs: seq<seq<RowLocation>>, i: nat, e: nat)
    requires i < |gs| && e == MetaEnd(gs, i)
    ensures MetaStart(gs, e) == MetaStart(gs, i) && MetaId(gs, e) == MetaId(gs, i)
  {
    MetaIdStep(gs, i, e);
  }

  /**
   * The colouring covers every false group: the first location of each
   * (non-empty) group lies in a range of its meta-group's colour, filed under
   * its fragment.
   */
  lemma FirstLocationCovered(gs: seq<seq<RowLocation>>, i: nat)
    requires SortedBy(gs, GroupLe()) && i < |gs| && gs[i] != []
    ensures exists r :: (r in Filed(gs, |gs|, gs[i][0].frag)
      && r.start <= gs[i][0].row <= r.end && r.group == MetaId(gs, i))
  {
    var e := MetaEnd(gs, i);
    SameMeta(gs, i, e);
    var s := MetaStart(gs, i);
    MetaShape(gs, e);
    FirstRowsConsecutive(gs, i);
    FirstRowsConsecutive(gs, e);
    var f := gs[i][0].frag;
    var r := RangeOf(gs[s][0], gs[e][0], MetaId(gs, e));
    assert FiledBy(gs, e, 0, f, r);
    FiledMembers(gs, |gs|, f, r);
  }

  /**
   * Whatever order the false groups arrive in, the first location of every
   * non-empty group is highlighted by a range filed under its fragment.
   */
  lemma EveryGroupHighlighted(falseRows: seq<seq<RowLocation>>, g: seq<RowLocation>)
    requires g in falseRows && g != []
    ensures var gs := SortBy(falseRows, GroupLe());
      exists r :: r in Filed(gs, |gs|, g[0].frag) && r.start <= g[0].row <= r.end
  {
    var gs := SortBy(falseRows, GroupLe());
    GroupLeTotalOrder();
    SortBySorted(falseRows, GroupLe());
    assert g in multiset(gs);
    var i :| 0 <= i < |gs| && gs[i] == g;
    FirstLocationCovered(gs, i);
  }

  // ---------------------------------------------------------------------------
  // Covering every location, not just the first
  // ---------------------------------------------------------------------------

  /** At position `k`, the third of three groups adjacent in turn does not come back to the first's location. */
  predicate NoTurnAt(gs: seq<seq<RowLocation>>, t: nat, k: nat)
    requires t + 2 < |gs|
  {
    Adjacent(gs[t], gs[t + 1]) && Adjacent(gs[t + 1], gs[t + 2]) && k < |gs[t]| ==> gs[t][k] != gs[t + 2][k]
  }

  /** No location recurs two groups later within a meta-group: the rows at a position never step back. */
  ghost predicate NoTurnBack(gs: seq<seq<RowLocation>>)
  {
    forall t: nat, k: nat :: t + 2 < |gs| ==> NoTurnAt(gs, t, k)
  }

  /**
   * Without turning back, the rows at one position of a meta-group walk in a
   * straight line from its first group: up by one per group, or down by one per group,
   * as the first step goes.
   */
  lemma {:induction false} WalkStraight(gs: seq<seq<RowLocation>>, t: nat, k: nat)
    requires t < |gs| && NoTurnBack(gs) && k < |gs[MetaStart(gs, t)]|
    ensures k < |gs[t]| && gs[t][k].frag == gs[MetaStart(gs, t)][k].frag
    ensures var s := MetaStart(gs, t);
      t > s ==> MetaStart(gs, s + 1) == s && k < |gs[s + 1]|
    ensures var s := MetaStart(gs, t); var a := gs[s][k].row;
      t > s && gs[s + 1][k].row == a + 1 ==> gs[t][k].row == a + (t - s)
    ensures var s := MetaStart(gs, t); var a := gs[s][k].row;
      t > s && a == gs[s + 1][k].row + 1 ==> gs[t][k].row + (t - s) == a
    decreases t
  {
    MetaShape(gs, t);
    var s := MetaStart(gs, t);
    if t > s {
      assert MetaStart(gs, t - 1) == s;
      assert Adjacent(gs[t - 1], gs[t]);
      WalkStraight(gs, t - 1, k);
      if t - 1 > s {
        assert MetaStart(gs, t - 2) == s;
        assert Adjacent(gs[t - 2], gs[t - 1]);
        WalkStraight(gs, t - 2, k);
        assert NoTurnAt(gs, t - 2, k);
      }
    }
  }

  /**
   * Without turning back, the row at each position of a group lies between
   * the rows of its meta-group's first and last groups there.
   */
  lemma WalkBetween(gs: seq<seq<RowLocation>>, e: nat, t: nat, k: nat)
    requires e < |gs| && NoTurnBack(gs) && MetaStart(gs, e) <= t <= e && k < |gs[MetaStart(gs, e)]|
    ensures var s := MetaStart(gs, e);
      k < |gs[t]| && k < |gs[e]| && gs[t][k].frag == gs[s][k].frag
      && Min(gs[s][k].row, gs[e][k].row) <= gs[t][k].row <= Max(gs[s][k].row, gs[e][k].row)
  {
    MetaIdStep(gs, t, e);
    WalkStraight(gs, t, k);
    WalkStraight(gs, e, k);
  }

  /**
   * When no location turns back, every location of every group lies in a
   * range of its meta-group's colour, filed under its fragment.
   */
  lemma LocationCovered(gs: seq<seq<RowLocation>>, t: nat, k: nat)
    requires t < |gs| && k < |gs[t]| && NoTurnBack(gs)
    ensures exists r :: (r in Filed(gs, |gs|, gs[t][k].frag)
      && r.start <= gs[t][k].row <= r.end && r.group == MetaId(gs, t))
  {
    var e := MetaEnd(gs, t);
    SameMeta(gs, t, e);
    var s := MetaStart(gs, t);
    MetaShape(gs, t);
    WalkBetween(gs, e, t, k);
    var f := gs[t][k].frag;
    var r := RangeOf(gs[s][k], gs[e][k], MetaId(gs, e));
    assert FiledBy(gs, e, k, f, r);
    FiledMembers(gs, |gs|, f, r);
  }

  /**
   * Whatever order the false groups arrive in, when no location turns back
   * every location of every group is highlighted by a range under its fragment.
   */
  lemma EveryLocationHighlighted(falseRows: seq<seq<RowLocation>>, g: seq<RowLocation>, k: nat)
    requires g in falseRows && k < |g| && NoTurnBack(SortBy(falseRows, GroupLe()))
    ensures var gs := SortBy(falseRows, GroupLe());
      exists r :: r in Filed(gs, |gs|, g[k].frag) && r.start <= g[k].row <= r.end
  {
    var gs := SortBy(falseRows, GroupLe());
    assert g in multiset(gs);
    var t :| 0 <= t < |gs| && gs[t] == g;
    LocationCovered(gs, t, k);
  }

  /**
   * The range a meta-group evidently means at position `k` of groups
   * `s..=e`: from the least to the greatest row found there.
   */
  function SpanRange(gs: seq<seq<RowLocation>>, s: nat, e: nat, k: nat, id: nat): (r: FalseRowRange)
    requires s <= e < |gs| && forall t :: s <= t <= e ==> k < |gs[t]|
    ensures r.group == id && r.start <= r.end
    ensures forall t :: s <= t <= e ==> r.start <= gs[t][k].row <= r.end
    ensures exists t :: s <= t <= e && gs[t][k].row == r.start
    ensures exists t :: s <= t <= e && gs[t][k].row == r.end
    decreases e - s
  {
    if e == s then FalseRowRange(gs[s][k].row, gs[s][k].row, id)
    else
      var r := SpanRange(gs, s, e - 1, k, id);
      FalseRowRange(Min(r.start, gs[e][k].row), Max(r.end, gs[e][k].row), id)
  }

  /**
   * When no location turns back, the range `add_ranges` builds from a
   * meta-group's first and last groups is exactly the least-to-greatest span.
   */
  lemma SpanAgrees(gs: seq<seq<RowLocation>>, e: nat, k: nat)
    requires e < |gs| && k < |gs[MetaStart(gs, e)]| && NoTurnBack(gs)
    ensures var s := MetaStart(gs, e);
      (forall t :: s <= t <= e ==> k < |gs[t]|)
      && SpanRange(gs, s, e, k, MetaId(gs, e)) == RangeOf(gs[s][k], gs[e][k], MetaId(gs, e))
  {
    var s := MetaStart(gs, e);
    forall t | s <= t <= e ensures k < |gs[t]| {
      WalkBetween(gs, e, t, k);
    }
    var r := SpanRange(gs, s, e, k, MetaId(gs, e));
    var t0 :| s <= t0 <= e && gs[t0][k].row == r.start;
    var t1 :| s <= t1 <= e && gs[t1][k].row == r.end;
    WalkBetween(gs, e, t0, k);
    WalkBetween(gs, e, t1, k);
  }

  /** The three groups of the zig-zag example, already in sorted order. */
  function ZigZag(): seq<seq<RowLocation>>
  {
    [[RowLocation(0, 5), RowLocation(1, 10)], [RowLocation(0, 6), RowLocation(1, 11)],
     [RowLocation(0, 7), RowLocation(1, 10)]]
  }

  lemma ZigZagSorted()
    ensures SortBy(ZigZag(), GroupLe()) == ZigZag()
  {
    var gs := ZigZag();
    GroupLeTotalOrder();
    assert LexLe(gs[0], gs[1], LocLe) && LexLe(gs[1], gs[2], LocLe) && LexLe(gs[0], gs[2], LocLe);
    assert SortedBy(gs, GroupLe());
    SortBySorted(gs, GroupLe());
    SortedUnique(SortBy(gs, GroupLe()), gs, GroupLe());
  }

  lemma ZigZagOneMeta()
    ensures Adjacent(ZigZag()[0], ZigZag()[1]) && Adjacent(ZigZag()[1], ZigZag()[2])
    ensures MetaStart(ZigZag(), 2) == 0 && MetaId(ZigZag(), 2) == 0
  {
    var gs := ZigZag();
    assert NextTo(gs[0][0], gs[1][0]) && NextTo(gs[0][1], gs[1][1]);
    assert NextTo(gs[1][0], gs[2][0]) && NextTo(gs[1][1], gs[2][1]);
  }

  lemma ZigZagFiled()
    ensures Filed(ZigZag(), 3, 1) == [FalseRowRange(10, 10, 0)]
  {
    var gs := ZigZag();
    ZigZagOneMeta();
    assert !EndsMeta(gs, 0) && !EndsMeta(gs, 1);
    assert Filed(gs, 2, 1) == [];
    assert PairRanges(gs[0], gs[2], 0, 1, 2) == [FalseRowRange(10, 10, 0)];
  }

  /**
   * The range as written misses a false row.  The three sorted groups of
   * `ZigZag` are adjacent in turn and form one meta-group; at their second
   * position the rows go 10, 11, 10, so fragment 1 gets the range 10..=10
   * only, and row 11 of the middle group is highlighted by nothing.  The
   * least-to-greatest span there is 10..=11.
   */
  lemma ZigZagUncovered()
    ensures var gs := ZigZag();
      && SortBy(gs, GroupLe()) == gs && MetaStart(gs, 2) == 0
      && gs[1][1] == RowLocation(1, 11)
      && (forall r :: r in Filed(gs, |gs|, 1) ==> !(r.start <= 11 <= r.end))
      && !NoTurnBack(gs)
      && SpanRange(gs, 0, 2, 1, 0) == FalseRowRange(10, 11, 0)
  {
    ZigZagSorted();
    ZigZagOneMeta();
    ZigZagMissed();
    ZigZagTurns();
    ZigZagSpan();
  }

  lemma ZigZagMissed()
    ensures forall r :: r in Filed(ZigZag(), |ZigZag()|, 1) ==> !(r.start <= 11 <= r.end)
  {
    ZigZagFiled();
  }

  lemma ZigZagTurns()
    ensures !NoTurnBack(ZigZag())
  {
    assert !NoTurnAt(ZigZag(), 0, 1);
  }

  lemma ZigZagSpan()
    ensures SpanRange(ZigZag(), 0, 2, 1, 0) == FalseRowRange(10, 11, 0)
  {
    var gs := ZigZag();
    assert SpanRange(gs, 0, 0, 1, 0) == FalseRowRange(10, 10, 0);
    assert SpanRange(gs, 0, 1, 1, 0) == FalseRowRange(10, 11, 0);
  }
}
