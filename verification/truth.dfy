/**
 * Truth proving (`gen_false_row_groups` in proj/src/derived_state.rs): the
 * flattened rows are sorted by row so that equal rows are adjacent, and each
 * run of two or more equal rows becomes a false-row group, the sorted list of
 * the on-screen locations of its rows.
 *
 * The specification below is stated on the flattened rows directly, with no
 * reference to the sort: for each row value that occurs at least twice, the
 * sorted locations where it occurs.  The method is proved to compute exactly
 * that, whatever order the sort leaves equal rows in.
 */
module TruthProving {
  import opened Wrappers
  import opened Rows
  import opened Orders
  import opened Sequences
  import opened Locations
  import opened Flattening

  /** `sort_by(|(_, r1), (_, r2)| r1.cmp(r2))` compares entries by their rows only. */
  predicate EntryLe(a: Entry, b: Entry)
  {
    RowLe(a.1, b.1)
  }

  lemma EntryLeTotalPreorder()
    ensures TotalPreorder(EntryLe)
  {
    RowLeTotalOrder();
  }

  /** The on-screen location of an entry (`RowLocation::from(origin)`). */
  function OriginLoc(e: Entry): RowLocation
  {
    FromOrigin(e.0)
  }

  function HasRow(v: Row): Entry -> bool
  {
    (e: Entry) => e.1 == v
  }

  /** The locations, in the order of `t`, of the entries whose row is `v`. */
  function LocsOf(t: seq<Entry>, v: Row): seq<RowLocation>
  {
    Map(Filter(t, HasRow(v)), OriginLoc)
  }

  /** The row values that occur in `t`. */
  function RowsIn(t: seq<Entry>): set<Row>
  {
    set e | e in t :: e.1
  }

  /** For each row occurring at least twice in `t`, its locations, put in order by `norm`. */
  ghost function GroupsWith(t: seq<Entry>, norm: seq<RowLocation> -> seq<RowLocation>): set<seq<RowLocation>>
  {
    set v | v in RowsIn(t) && |LocsOf(t, v)| >= 2 :: norm(LocsOf(t, v))
  }

  /** `Vec::sort` on a group of locations. */
  function SortLocs(locs: seq<RowLocation>): seq<RowLocation>
  {
    SortBy(locs, LocLe)
  }

  /** The false-row groups of `t`: for each row occurring at least twice, its locations in order. */
  ghost function FalseGroupsOf(t: seq<Entry>): set<seq<RowLocation>>
  {
    GroupsWith(t, SortLocs)
  }

  /** An entry is false in `t` when its row occurs at least twice in `t`. */
  function IsFalse(t: seq<Entry>): Entry -> bool
  {
    (e: Entry) => |LocsOf(t, e.1)| >= 2
  }

  /** The number of false rows of `t`: every entry whose row is repeated, counted once per entry. */
  function FalseCount(t: seq<Entry>): nat
  {
    |Filter(t, IsFalse(t))|
  }

  // ---------------------------------------------------------------------------
  // Facts about the specification
  // ---------------------------------------------------------------------------

  lemma LocsOfConcat(a: seq<Entry>, b: seq<Entry>, v: Row)
    ensures LocsOf(a + b, v) == LocsOf(a, v) + LocsOf(b, v)
  {
    FilterConcat(a, b, HasRow(v));
    MapConcat(Filter(a, HasRow(v)), Filter(b, HasRow(v)), OriginLoc);
  }

  lemma LocsOfAbsent(t: seq<Entry>, v: Row)
    requires v !in RowsIn(t)
    ensures LocsOf(t, v) == []
  {
    forall e | e in t ensures !HasRow(v)(e) {
      assert e.1 in RowsIn(t);
    }
    FilterNone(t, HasRow(v));
  }

  lemma LocsOfRun(r: seq<Entry>, v: Row)
    requires forall k :: 0 <= k < |r| ==> r[k].1 == v
    ensures LocsOf(r, v) == Map(r, OriginLoc)
  {
    FilterAll(r, HasRow(v));
  }

  /** A row occurs in `t` exactly when it has a location there. */
  lemma LocsOfPresent(t: seq<Entry>, v: Row)
    ensures v in RowsIn(t) <==> |LocsOf(t, v)| > 0
  {
    if v in RowsIn(t) {
      var e :| e in t && e.1 == v;
      FilterMembers(t, HasRow(v), e);
    } else {
      LocsOfAbsent(t, v);
    }
  }

  /** Reordering the entries reorders the locations of each row. */
  lemma LocsOfPerm(x: seq<Entry>, y: seq<Entry>, v: Row)
    requires multiset(x) == multiset(y)
    ensures multiset(LocsOf(x, v)) == multiset(LocsOf(y, v))
    ensures |LocsOf(x, v)| == |LocsOf(y, v)|
  {
    FilterPerm(x, y, HasRow(v));
    MapPerm(Filter(x, HasRow(v)), Filter(y, HasRow(v)), OriginLoc);
    assert |multiset(LocsOf(x, v))| == |multiset(LocsOf(y, v))|;
  }

  lemma RowsInPerm(x: seq<Entry>, y: seq<Entry>)
    requires multiset(x) == multiset(y)
    ensures RowsIn(x) == RowsIn(y)
  {
    forall v ensures v in RowsIn(x) <==> v in RowsIn(y) {
      if v in RowsIn(x) {
        var e :| e in x && e.1 == v;
        assert e in multiset(y);
      }
      if v in RowsIn(y) {
        var e :| e in y && e.1 == v;
        assert e in multiset(x);
      }
    }
  }

  /** The false-row groups do not depend on the order of the entries. */
  lemma FalseGroupsPerm(x: seq<Entry>, y: seq<Entry>)
    requires multiset(x) == multiset(y)
    ensures FalseGroupsOf(x) == FalseGroupsOf(y)
  {
    LocLeTotalOrder();
    RowsInPerm(x, y);
    forall v ensures SortBy(LocsOf(x, v), LocLe) == SortBy(LocsOf(y, v), LocLe)
      && |LocsOf(x, v)| == |LocsOf(y, v)|
    {
      LocsOfPerm(x, y, v);
      SortBySorted(LocsOf(x, v), LocLe);
      SortBySorted(LocsOf(y, v), LocLe);
      SortedUnique(SortBy(LocsOf(x, v), LocLe), SortBy(LocsOf(y, v), LocLe), LocLe);
    }
  }

  /** The number of false rows does not depend on the order of the entries. */
  lemma FalseCountPerm(x: seq<Entry>, y: seq<Entry>)
    requires multiset(x) == multiset(y)
    ensures FalseCount(x) == FalseCount(y)
  {
    forall e | e in y ensures IsFalse(y)(e) == IsFalse(x)(e) {
      LocsOfPerm(x, y, e.1);
    }
    FilterAgree(y, IsFalse(y), IsFalse(x));
    FilterPerm(x, y, IsFalse(x));
    assert |multiset(Filter(x, IsFalse(x)))| == |multiset(Filter(y, IsFalse(x)))|;
  }

  /** After appending a run of the new row value `v`, `v`'s locations are the run's and the others' are unchanged. */
  lemma AppendRunLocs(p: seq<Entry>, r: seq<Entry>, v: Row, u: Row)
    requires r != [] && (forall k :: 0 <= k < |r| ==> r[k].1 == v) && v !in RowsIn(p)
    ensures u in RowsIn(p + r) <==> u in RowsIn(p) || u == v
    ensures LocsOf(p + r, u) == if u == v then Map(r, OriginLoc) else LocsOf(p, u)
  {
    assert r[0] in r;
    assert RowsIn(p + r) == RowsIn(p) + {v};
    LocsOfConcat(p, r, u);
    if u == v {
      LocsOfAbsent(p, v);
      LocsOfRun(r, v);
    } else {
      LocsOfAbsent(r, u);
    }
  }

  /** Appending a run of one new row value adds its group, if it is false. */
  lemma AppendRunGroups(p: seq<Entry>, r: seq<Entry>, v: Row, norm: seq<RowLocation> -> seq<RowLocation>)
    requires r != [] && (forall k :: 0 <= k < |r| ==> r[k].1 == v) && v !in RowsIn(p)
    ensures GroupsWith(p + r, norm) ==
      GroupsWith(p, norm) + (if |r| >= 2 then {norm(Map(r, OriginLoc))} else {})
  {
    var extra := if |r| >= 2 then {norm(Map(r, OriginLoc))} else {};
    forall g ensures g in GroupsWith(p + r, norm) <==> g in GroupsWith(p, norm) + extra {
      if g in GroupsWith(p + r, norm) {
        var u :| u in RowsIn(p + r) && |LocsOf(p + r, u)| >= 2 && g == norm(LocsOf(p + r, u));
        AppendRunLocs(p, r, v, u);
      }
      if g in GroupsWith(p, norm) {
        var u :| u in RowsIn(p) && |LocsOf(p, u)| >= 2 && g == norm(LocsOf(p, u));
        AppendRunLocs(p, r, v, u);
        assert u in RowsIn(p + r) && |LocsOf(p + r, u)| >= 2 && g == norm(LocsOf(p + r, u));
      }
      if g in extra {
        AppendRunLocs(p, r, v, v);
        assert v in RowsIn(p + r) && |LocsOf(p + r, v)| >= 2 && g == norm(LocsOf(p + r, v));
      }
    }
  }

  lemma AppendRunCount(p: seq<Entry>, r: seq<Entry>, v: Row)
    requires r != [] && (forall k :: 0 <= k < |r| ==> r[k].1 == v) && v !in RowsIn(p)
    ensures FalseCount(p + r) == FalseCount(p) + (if |r| >= 2 then |r| else 0)
  {
    var t := p + r;
    FilterConcat(p, r, IsFalse(t));
    forall e | e in p ensures IsFalse(t)(e) == IsFalse(p)(e) {
      assert e.1 in RowsIn(p);
      LocsOfConcat(p, r, e.1);
      LocsOfAbsent(r, e.1);
    }
    FilterAgree(p, IsFalse(t), IsFalse(p));
    LocsOfConcat(p, r, v);
    LocsOfAbsent(p, v);
    LocsOfRun(r, v);
    if |r| >= 2 {
      FilterAll(r, IsFalse(t));
    } else {
      FilterNone(r, IsFalse(t));
    }
  }

  /** In a sequence sorted by row, a row value that differs from its predecessor is new. */
  lemma RunFresh(s: seq<Entry>, i: nat)
    requires SortedBy(s, EntryLe) && 0 < i < |s| && s[i - 1].1 != s[i].1
    ensures s[i].1 !in RowsIn(s[..i])
  {
    RowLeTotalOrder();
    forall j | 0 <= j < i ensures s[j].1 != s[i].1 {
      assert RowLe(s[j].1, s[i - 1].1) by {
        if j < i - 1 {
          assert EntryLe(s[j], s[i - 1]);
        }
      }
      assert EntryLe(s[i - 1], s[i]);
    }
  }

  /**
   * In a sequence sorted by row, two entries lie in one run of equal rows
   * exactly when their rows are equal: everything between them then has that row.
   */
  lemma RunsContiguous(s: seq<Entry>, i: nat, j: nat)
    requires SortedBy(s, EntryLe) && i <= j < |s|
    ensures s[i].1 == s[j].1 <==> forall k :: i <= k <= j ==> s[k].1 == s[i].1
  {
    if s[i].1 == s[j].1 {
      RowLeTotalOrder();
      forall k | i <= k <= j ensures s[k].1 == s[i].1 {
        if i < k {
          assert EntryLe(s[i], s[k]);
        }
        if k < j {
          assert EntryLe(s[k], s[j]);
        }
      }
    }
  }

  // ---------------------------------------------------------------------------
  // The sweep
  // ---------------------------------------------------------------------------

  /**
   * The sweep over sorted entries `s` has looked at `s[..i]`, split into the
   * runs it has closed and the current run of equal rows; `current` holds the
   * current run's locations, and the groups and count are those of the closed
   * runs, none of which has the current run's row.
   */
  ghost predicate SweepInv(s: seq<Entry>, i: nat, closed: seq<Entry>, run: seq<Entry>, lastRow: Option<Row>,
                           current: seq<RowLocation>, groups: set<seq<RowLocation>>, num: nat)
  {
    i <= |s| && closed + run == s[..i]
    && (lastRow == None <==> run == [])
    && (run != [] ==> lastRow == Some(run[0].1) && run[0].1 !in RowsIn(closed)
                      && forall k :: 0 <= k < |run| ==> run[k].1 == run[0].1)
    && current == Map(run, OriginLoc)
    && groups == FalseGroupsOf(closed) && num == FalseCount(closed)
  }

  /** Before the sweep nothing is seen and nothing is found. */
  lemma SweepInit(s: seq<Entry>)
    ensures SweepInv(s, 0, [], [], None, [], {}, 0)
  {
    assert s[..0] == [];
  }

  /** Closing the current run of row `v`. */
  lemma SweepClose(s: seq<Entry>, i: nat, closed: seq<Entry>, run: seq<Entry>, v: Row,
                   current: seq<RowLocation>, groups: set<seq<RowLocation>>, num: nat)
    requires SweepInv(s, i, closed, run, Some(v), current, groups, num)
    ensures SweepInv(s, i, closed + run, [], None, [],
                     groups + (if |current| > 1 then {SortBy(current, LocLe)} else {}),
                     num + (if |current| > 1 then |current| else 0))
  {
    CloseGroups(closed, run, v, current, groups);
    CloseCount(closed, run, v, current, num);
  }

  /** A row that differs from the current run's is new to everything seen so far. */
  lemma CloseFresh(s: seq<Entry>, i: nat, closed: seq<Entry>, run: seq<Entry>, v: Row,
                   current: seq<RowLocation>, groups: set<seq<RowLocation>>, num: nat)
    requires SortedBy(s, EntryLe) && i < |s| && s[i].1 != v
    requires SweepInv(s, i, closed, run, Some(v), current, groups, num)
    ensures s[i].1 !in RowsIn(closed + run)
  {
    assert s[i - 1] == run[|run| - 1];
    RunFresh(s, i);
  }

  /** The groups of the closed runs gain the current run's group when it has more than one location. */
  lemma CloseGroups(closed: seq<Entry>, run: seq<Entry>, v: Row, current: seq<RowLocation>, groups: set<seq<RowLocation>>)
    requires run != [] && (forall k :: 0 <= k < |run| ==> run[k].1 == v) && v !in RowsIn(closed)
    requires current == Map(run, OriginLoc) && groups == FalseGroupsOf(closed)
    ensures groups + (if |current| > 1 then {SortBy(current, LocLe)} else {}) == FalseGroupsOf(closed + run)
  {
    AppendRunGroups(closed, run, v, SortLocs);
  }

  /** The count of the closed runs gains the current run's length when it is more than one. */
  lemma CloseCount(closed: seq<Entry>, run: seq<Entry>, v: Row, current: seq<RowLocation>, num: nat)
    requires run != [] && (forall k :: 0 <= k < |run| ==> run[k].1 == v) && v !in RowsIn(closed)
    requires |current| == |run| && num == FalseCount(closed)
    ensures num + (if |current| > 1 then |current| else 0) == FalseCount(closed + run)
  {
    AppendRunCount(closed, run, v);
  }

  /** Adding `s[i]` to the current run, which is empty or has the same row. */
  lemma SweepPush(s: seq<Entry>, i: nat, closed: seq<Entry>, run: seq<Entry>, lastRow: Option<Row>,
                  current: seq<RowLocation>, groups: set<seq<RowLocation>>, num: nat)
    requires i < |s| && SweepInv(s, i, closed, run, lastRow, current, groups, num)
    requires lastRow == None || lastRow == Some(s[i].1)
    requires lastRow == None ==> i == 0 || s[i].1 !in RowsIn(closed)
    ensures SweepInv(s, i + 1, closed, run + [s[i]], Some(s[i].1), current + [FromOrigin(s[i].0)], groups, num)
  {
    if i == 0 {
      assert closed == [];
    }
    assert s[..i + 1] == s[..i] + [s[i]];
  }

  /** Closing the last run once the sweep has seen every entry. */
  lemma SweepFinish(s: seq<Entry>, closed: seq<Entry>, run: seq<Entry>, lastRow: Option<Row>,
                    current: seq<RowLocation>, groups: set<seq<RowLocation>>, num: nat)
    requires SweepInv(s, |s|, closed, run, lastRow, current, groups, num)
    ensures groups + (if |current| > 1 then {SortBy(current, LocLe)} else {}) == FalseGroupsOf(s)
    ensures num + (if |current| > 1 then |current| else 0) == FalseCount(s)
  {
    assert s[..|s|] == s;
    if run != [] {
      AppendRunGroups(closed, run, run[0].1, SortLocs);
      AppendRunCount(closed, run, run[0].1);
    } else {
      assert closed == s;
    }
  }

  /** Closing the current run: it becomes a false-row group, sorted, when it has more than one location. */
  method CloseRun(sorted: seq<Entry>, i: nat, ghost closed: seq<Entry>, ghost run: seq<Entry>, v: Row,
                  current: seq<RowLocation>, falseRows: set<seq<RowLocation>>, numFalseRows: nat)
    returns (falseRows': set<seq<RowLocation>>, numFalseRows': nat)
    requires SortedBy(sorted, EntryLe) && i < |sorted| && sorted[i].1 != v
    requires SweepInv(sorted, i, closed, run, Some(v), current, falseRows, numFalseRows)
    ensures SweepInv(sorted, i, closed + run, [], None, [], falseRows', numFalseRows')
    ensures sorted[i].1 !in RowsIn(closed + run)
  {
    SweepClose(sorted, i, closed, run, v, current, falseRows, numFalseRows);
    CloseFresh(sorted, i, closed, run, v, current, falseRows, numFalseRows);
    falseRows', numFalseRows' := falseRows, numFalseRows;
    if |current| > 1 {
      numFalseRows' := numFalseRows + |current|;
      falseRows' := falseRows + {SortBy(current, LocLe)};
    }
  }

  /**
   * One step of the sweep of `gen_false_row_groups`: if the row of `sorted[i]`
   * differs from the last one, close the current run, keeping it (sorted) when
   * it has more than one location; then add `sorted[i]` to the current run.
   */
  method SweepStep(sorted: seq<Entry>, i: nat, lastRow: Option<Row>, current: seq<RowLocation>,
                   falseRows: set<seq<RowLocation>>, numFalseRows: nat, ghost closed: seq<Entry>, ghost run: seq<Entry>)
    returns (lastRow': Option<Row>, current': seq<RowLocation>, falseRows': set<seq<RowLocation>>,
             numFalseRows': nat, ghost closed': seq<Entry>, ghost run': seq<Entry>)
    requires SortedBy(sorted, EntryLe) && i < |sorted|
    requires SweepInv(sorted, i, closed, run, lastRow, current, falseRows, numFalseRows)
    requires lastRow == None ==> i == 0
    ensures SweepInv(sorted, i + 1, closed', run', lastRow', current', falseRows', numFalseRows')
    ensures lastRow' != None
  {
    var o, r := sorted[i].0, sorted[i].1;
    lastRow', current', falseRows', numFalseRows', closed', run' := lastRow, current, falseRows, numFalseRows, closed, run;
    if lastRow'.Some? && lastRow'.value != r {
      falseRows', numFalseRows' := CloseRun(sorted, i, closed, run, lastRow'.value, current, falseRows, numFalseRows);
      current' := [];
      lastRow' := None;
      closed', run' := closed + run, [];
    }
    SweepPush(sorted, i, closed', run', lastRow', current', falseRows', numFalseRows');
    lastRow' := Some(r);
    current' := current' + [FromOrigin(o)];
    run' := run' + [sorted[i]];
  }

  /** The sweep of `gen_false_row_groups` over entries sorted by row, and its final close. */
  method SweepRuns(sorted: seq<Entry>) returns (falseRows: set<seq<RowLocation>>, numFalseRows: nat)
    requires SortedBy(sorted, EntryLe)
    ensures falseRows == FalseGroupsOf(sorted)
    ensures numFalseRows == FalseCount(sorted)
  {
    falseRows := {};
    var current: seq<RowLocation> := [];
    var lastRow: Option<Row> := None;
    numFalseRows := 0;
    ghost var closed: seq<Entry>, run: seq<Entry> := [], [];
    SweepInit(sorted);
    for i := 0 to |sorted|
      invariant SweepInv(sorted, i, closed, run, lastRow, current, falseRows, numFalseRows)
      invariant lastRow == None ==> i == 0
    {
      lastRow, current, falseRows, numFalseRows, closed, run :=
        SweepStep(sorted, i, lastRow, current, falseRows, numFalseRows, closed, run);
    }
    falseRows, numFalseRows := FinishRuns(sorted, closed, run, lastRow, current, falseRows, numFalseRows);
  }

  /** After the last entry, the current run is closed like the others. */
  method FinishRuns(sorted: seq<Entry>, ghost closed: seq<Entry>, ghost run: seq<Entry>, ghost lastRow: Option<Row>,
                    current: seq<RowLocation>, falseRows: set<seq<RowLocation>>, numFalseRows: nat)
    returns (falseRows': set<seq<RowLocation>>, numFalseRows': nat)
    requires SweepInv(sorted, |sorted|, closed, run, lastRow, current, falseRows, numFalseRows)
    ensures falseRows' == FalseGroupsOf(sorted)
    ensures numFalseRows' == FalseCount(sorted)
  {
    SweepFinish(sorted, closed, run, lastRow, current, falseRows, numFalseRows);
    falseRows', numFalseRows' := falseRows, numFalseRows;
    if |current| > 1 {
      numFalseRows' := numFalseRows + |current|;
      falseRows' := falseRows + {SortBy(current, LocLe)};
    }
  }

  /**
   * `gen_false_row_groups`: sort the entries by row so that equal rows are
   * adjacent, then sweep.  The groups form a set, as the program's `HashSet`
   * does, and they and the count are those of the unsorted entries.
   */
  method GenFalseRowGroups(flat: seq<Entry>) returns (falseRows: set<seq<RowLocation>>, numFalseRows: nat)
    ensures falseRows == FalseGroupsOf(flat)
    ensures numFalseRows == FalseCount(flat)
  {
    var sorted := SortBy(flat, EntryLe);
    EntryLeTotalPreorder();
    SortBySorted(flat, EntryLe);
    falseRows, numFalseRows := SweepRuns(sorted);
    FalseGroupsPerm(sorted, flat);
    FalseCountPerm(sorted, flat);
  }

  // ---------------------------------------------------------------------------
  // Properties of the false-row groups
  // ---------------------------------------------------------------------------

  /**
   * Every false-row group has at least two locations, is sorted by location,
   * and lists every location of one repeated row; a repeated row's entries are
   * all counted.
   */
  lemma FalseGroupsShape(t: seq<Entry>, g: seq<RowLocation>)
    requires g in FalseGroupsOf(t)
    ensures |g| >= 2 && SortedBy(g, LocLe)
    ensures exists v :: v in RowsIn(t) && multiset(g) == multiset(LocsOf(t, v))
  {
    LocLeTotalOrder();
    var v :| v in RowsIn(t) && |LocsOf(t, v)| >= 2 && g == SortBy(LocsOf(t, v), LocLe);
    SortBySorted(LocsOf(t, v), LocLe);
  }

  /** There are false rows exactly when there is a false-row group, and then at least two. */
  lemma FalseCountIffGroups(t: seq<Entry>)
    ensures FalseCount(t) == 0 <==> FalseGroupsOf(t) == {}
    ensures FalseCount(t) != 1
  {
    if FalseGroupsOf(t) != {} {
      var g :| g in FalseGroupsOf(t);
      var v :| v in RowsIn(t) && |LocsOf(t, v)| >= 2 && g == SortBy(LocsOf(t, v), LocLe);
      FalseEntriesOfRow(t, v);
    }
    if FalseCount(t) != 0 {
      var f := Filter(t, IsFalse(t));
      assert f[0] in f;
      FilterMembers(t, IsFalse(t), f[0]);
      var v := f[0].1;
      LocsOfPresent(t, v);
      assert SortBy(LocsOf(t, v), LocLe) in FalseGroupsOf(t);
      FalseEntriesOfRow(t, v);
    }
  }

  /** Every entry with a repeated row `v` is a false entry, so there are at least as many. */
  lemma FalseEntriesOfRow(t: seq<Entry>, v: Row)
    requires |LocsOf(t, v)| >= 2
    ensures FalseCount(t) >= 2
  {
    var f := Filter(t, HasRow(v));
    forall e | e in f ensures e in Filter(t, IsFalse(t)) {
      FilterMembers(t, HasRow(v), e);
      FilterMembers(t, IsFalse(t), e);
    }
    SubseqCount(f, Filter(t, IsFalse(t)), t, HasRow(v), IsFalse(t));
  }

  /** Every element of `Filter(s, p)` passing `q` makes the `q`-filter at least as long. */
  lemma {:induction false} SubseqCount(f: seq<Entry>, g: seq<Entry>, s: seq<Entry>, p: Entry -> bool, q: Entry -> bool)
    requires f == Filter(s, p) && g == Filter(s, q)
    requires forall e :: e in s && p(e) ==> q(e)
    ensures |f| <= |g|
    decreases |s|
  {
    if s != [] {
      var s' := s[..|s| - 1];
      assert forall e :: e in s' ==> e in s;
      SubseqCount(Filter(s', p), Filter(s', q), s', p, q);
      assert s[|s| - 1] in s;
    }
  }
}
