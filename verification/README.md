# Row algebra, composition display pipeline and undo history

This project models three parts of a bell-ringing composition editor and
proves what each promises.

**The row algebra** (`core/src/row.rs`). A row is a sequence of bell indices
that must be a permutation of `0..stage`. The model covers:
- the validity check, with its two error kinds and the first-offender rule;
- the generators rounds, backrounds and queens;
- the unchecked product and the stage-checked `*`;
- the inverse `!`;
- the closure, that is, the powers of a row up to rounds.

**The derivation pipeline** (`proj/src/derived_state.rs`) turns the
expanded fragments of a composition into what the editor draws:
- `ExpandedRow::new` expands a row into one row per part head.
- `calculate_music` highlights music positions part by part.
- `flatten_proved_rows` lists every proved row with its origin.
- `gen_false_row_groups` sorts those rows and sweeps them into groups of identical rows (the "false" rows).
- `coalesce_false_row_groups` and `add_ranges` merge adjacent groups into coloured, inclusive ranges of rows.
- `gen_frag_links` links fragments whose leftover row is another fragment's first row, and colours the links by row in order of discovery.
- `get_row` and `get_part_head` are the lookups on the derived state.

**The undo history** (`src/history.rs`) is a cursor over a list of snapshots.
It is modelled as a class whose `undo`/`redo` methods move the cursor.

The imperative code keeps its form. Each of these is a method whose loop
keeps a named invariant and is proved against a specification function:
- the validity checklist scan;
- the inverse's fill loop;
- the closure loop;
- the music pushes;
- the flattening loops;
- the false-row sweep;
- the meta-group sweep and `add_ranges`;
- the nested linking loops.

The properties are then proved about those functions. Loop bodies that carry
a lot of state are split into step methods whose contract is the loop
invariant: `SweepStep`, `MetaStep`, `VisitPair` and `PushPartMusic`.

Modules:
- `Wrappers`: `Option`/`Result`, `Min`/`Max`.
- `Rows`: the row algebra.
- `Orders`: total preorders, insertion sort, lexicographic order on sequences.
- `Sequences`: filter and map, and their behaviour under permutation.
- `Locations`: `RowOrigin`, `RowLocation` and their orders.
- `Expansion`: expanded rows and music.
- `Flattening`: flattening the proved rows.
- `TruthProving`: false-row groups.
- `Coalescing`: false-row ranges.
- `Linking`: fragment links.
- `Derived`: the derived state and its lookups.
- `UndoHistory`: the undo history.

## Model

| member | source | states |
|---|---|---|
| Rows.StageBellsOfValid | core/src/row.rs:178-180 | The stage is the number of bells, and the bells of a valid row are exactly those below it |
| Rows.ValidIffEveryBellOnce | core/src/row.rs:337-355 | A row is valid (a permutation of `0..len`) exactly when each index below the length occurs once, which is what the checklist scan tests |
| Rows.CheckValidity | core/src/row.rs:337-355 | `Ok` exactly when every bell below the stage occurs once, and then the row itself; otherwise the error for the first offending bell in scan order: `BellOutOfStage(b, stage)` or `DuplicateBell(b)` |
| Rows.FirstOffenderUnique | core/src/row.rs:337-355 | The offending position the scan stops at is unique |
| Rows.CleanBeforeFirstOffender | core/src/row.rs:337-355 | Every bell before the first offender is in range and not yet seen |
| Rows.DuplicateBellExample | core/src/row.rs:217-227 | "112345" fails at its second bell with `DuplicateBell(1)` |
| Rows.BellOutOfStageExample | core/src/row.rs:217-227 | "12745" fails at its third bell with `BellOutOfStage(7, 5 bells)` |
| Rows.FromVec | core/src/row.rs:258-266 | `from_vec`/`from_iter_checked`: the same outcome as the validity check on the given bells |
| Rows.Rounds | core/src/row.rs:124-127 | A valid row of the given stage with `r[i] = i` |
| Rows.Backrounds | core/src/row.rs:138-141 | A valid row of the given stage with `r[i] = stage-1-i`, strictly decreasing |
| Rows.Queens | core/src/row.rs:152-161 | A valid row of the given stage: the even indices ascending, then the odd ones |
| Rows.IsRounds | core/src/row.rs:379-394 | True exactly when the row equals rounds on its own stage |
| Rows.MulUnchecked | core/src/row.rs:418-421 | The product has the stage of `rhs` and `r[i] = lhs[rhs[i]]` |
| Rows.MulValid | core/src/row.rs:418-421 | The product of two valid rows of one stage is valid |
| Rows.MulAssoc | core/src/row.rs:418-421 | The product is associative on valid rows of one stage |
| Rows.MulRounds | core/src/row.rs:418-421 | Rounds is a left and right identity |
| Rows.TestErr | core/src/row.rs:44-56 | `Ok` exactly when the stages are equal, else `IncompatibleStages(lhs, rhs)` |
| Rows.Mul | core/src/row.rs:520-547 | `Err(IncompatibleStages(lhs.stage, rhs.stage))` exactly when the stages differ, otherwise `Ok` of the unchecked product; valid inputs give a valid product |
| Rows.Inverse | core/src/row.rs:561-587 | For a valid `x`, `!x` is valid, of the same stage, satisfies `inv[x[i]] = i`, and `x * !x == !x * x ==` rounds |
| Rows.InverseLaws | core/src/row.rs:561-587 | Any row with `inv[x[i]] = i` is valid and is a two-sided inverse |
| Rows.PowerAdd | core/src/row.rs:423-455 | `x^(i+j) = x^i * x^j` |
| Rows.PowersDistinct | core/src/row.rs:423-455 | Powers before the first that is rounds are all different |
| Rows.ClosureStep | core/src/row.rs:445-455 | One turn of the closure loop: the new row is not yet in the list, is a row of the stage, and the list stays the successive powers of `x` |
| Rows.Closure | core/src/row.rs:423-455 | The list is `x, x^2, ...` (so it starts with `x` and each element is the previous one times `x`), ends with rounds and holds rounds nowhere earlier; the loop ends because it never repeats a row and there are finitely many rows of a stage |
| Rows.FastHashAsWritten | core/src/row.rs:192-200 | The hash as written is always 0 |
| Rows.FastHashAsWrittenCollides | core/src/row.rs:186-200 | `[0,1]` and `[1,0]` are different valid rows with different base-stage readings, yet the hash as written returns the same value for both |
| Rows.FastHash | core/src/row.rs:186-200 | The corrected hash is the row read as a base-`stage` number |
| Rows.FastHashInjective | core/src/row.rs:186-200 | Two valid rows of one stage with the same corrected hash are equal |
| Orders.SortBy | proj/src/derived_state.rs:350 | The library sort returns a permutation of its input |
| Orders.SortBySorted | proj/src/derived_state.rs:350 | Sorting by a total preorder gives a sorted result |
| Orders.SortedUnique | proj/src/derived_state.rs:375-376 | Two sorted permutations of one multiset under a total order are equal, so sorting a group makes equal groups equal |
| Orders.LexTotalOrder | proj/src/derived_state.rs:411 | The lexicographic order on sequences is a total order when the element order is |
| Locations.FromOriginForgetsPart | proj/src/derived_state.rs:48-55 | The location keeps an origin's fragment and row and drops its part: two origins give one location exactly when those agree |
| Locations.LocLeTotalOrder | proj/src/derived_state.rs:33-39 | The derived order on `RowLocation` (fragment, then row) is a total order |
| Locations.LocOrderExamples | proj/src/derived_state.rs:498-509 | The orderings the unit test checks: fragment first, then row |
| Locations.GroupLeTotalOrder | proj/src/derived_state.rs:411 | Groups of locations are totally ordered lexicographically |
| Locations.RowLeTotalOrder | proj/src/derived_state.rs:350 | The order on rows used by the sort is total |
| Expansion.MusicParts | proj/src/derived_state.rs:103-124 | The parts listed at a position are exactly those with a front run of at least 4 covering it, or a back run of at least 4 covering it at or after `max(stage - back, front)`; they are strictly ascending, so each appears once |
| Expansion.PushPart | proj/src/derived_state.rs:110-121 | `music[lo..hi]` each gain `part` at the end, and the other positions are unchanged |
| Expansion.MusicStep | proj/src/derived_state.rs:107-122 | The two pushes for one part extend every position's list exactly as `MusicParts` prescribes |
| Expansion.PushPartMusic | proj/src/derived_state.rs:107-122 | One turn of the loop takes the music from the first `part` parts to the first `part + 1` |
| Expansion.CalculateMusic | proj/src/derived_state.rs:103-124 | The result has `stage` entries and each lists exactly the parts with music there, in order |
| Expansion.NewExpandedRow | proj/src/derived_state.rs:127-144 | One row per part head, `rows[k] = part_heads[k] * row` of the row's stage (valid when the inputs are), labels and flags copied, and the music of those rows |
| Flattening.FlattenProvedRows | proj/src/derived_state.rs:315-339 | The output is the list of entries of the proved expanded rows, fragment by fragment, row by row, part by part, and `part_len` counts the proved expanded rows once each |
| Flattening.FlattenMembers | proj/src/derived_state.rs:315-339 | `(origin, row)` is output exactly when its expanded row is proved and `row` is its part `origin.part`; origins come out strictly ascending in (frag, row, part) order |
| Flattening.FlattenLength | proj/src/derived_state.rs:315-339 | With `parts` rows per expanded row, the output has `parts * part_len` entries |
| TruthProving.FalseGroupsPerm | proj/src/derived_state.rs:345-401 | The groups do not depend on the order of the flattened rows |
| TruthProving.FalseCountPerm | proj/src/derived_state.rs:345-401 | Nor does the false-row count |
| TruthProving.RunFresh | proj/src/derived_state.rs:361-363 | In the sorted rows, a row that differs from the one before has not been seen before |
| TruthProving.RunsContiguous | proj/src/derived_state.rs:350-363 | In the sorted rows, two entries have equal rows exactly when every entry between them has that row, so each row's entries form one run |
| TruthProving.SweepClose | proj/src/derived_state.rs:363-380 | Closing a run adds its sorted locations as a group, and its length to the count, when it has more than one location |
| TruthProving.CloseRun | proj/src/derived_state.rs:363-380 | The closing branch of the sweep keeps the sweep invariant with an empty current run |
| TruthProving.SweepPush | proj/src/derived_state.rs:383-385 | Pushing the next location onto the current run keeps the invariant |
| TruthProving.SweepStep | proj/src/derived_state.rs:361-386 | One turn of the sweep keeps the invariant: the groups and count are those of the runs closed so far |
| TruthProving.SweepRuns | proj/src/derived_state.rs:355-397 | On sorted entries the sweep returns exactly the groups of locations of repeated rows and the total size of those runs |
| TruthProving.FinishRuns | proj/src/derived_state.rs:388-397 | The final close completes the groups and the count |
| TruthProving.GenFalseRowGroups | proj/src/derived_state.rs:345-401 | The groups are the sorted location lists of every row that occurs at least twice, and the count is the total number of entries of such rows, whatever the input order |
| TruthProving.FalseGroupsShape | proj/src/derived_state.rs:345-401 | Every group has at least two locations, is sorted by location and holds all locations of one repeated row |
| TruthProving.FalseCountIffGroups | proj/src/derived_state.rs:345-401 | The count is 0 exactly when there are no groups, and is never 1 |
| Coalescing.RangeOf | proj/src/derived_state.rs:477-481 | `start <= end`, the range's endpoints are the two rows, and it carries the given id |
| Coalescing.PairRangesMembers | proj/src/derived_state.rs:471-488 | A range is filed under fragment `f` exactly when it is the range of a pair of locations at one position in fragment `f` |
| Coalescing.AddRanges | proj/src/derived_state.rs:461-489 | Every fragment's list gains, in order, the ranges of its pairs, and nothing else changes; no fragment gets an empty entry |
| Coalescing.MetaShape | proj/src/derived_state.rs:425-428 | Every group of a meta-group has its first group's length and fragments, so the `assert_eq!`s of `add_ranges` never fail |
| Coalescing.CloseMeta | proj/src/derived_state.rs:429-452 | Closing a meta-group at its last group files its ranges |
| Coalescing.MetaStep | proj/src/derived_state.rs:419-445 | One turn of the loop keeps the sweep invariant: a non-adjacent group closes the open meta-group and opens one with the next id |
| Coalescing.SweepMetaGroups | proj/src/derived_state.rs:414-453 | The final id plus one is the group total and the ranges are exactly those of every meta-group |
| Coalescing.CoalesceFalseRowGroups | proj/src/derived_state.rs:406-457 | On the sorted groups, the ranges filed under each fragment are exactly those of the meta-groups, and the count is the last group's id plus one |
| Coalescing.FiledMembers | proj/src/derived_state.rs:406-489 | A range is filed under `f` exactly when it is the range of some position in `f` of some meta-group |
| Coalescing.RangesWellFormed | proj/src/derived_state.rs:461-489 | Every filed range has `start <= end` and an id no greater than the last id, and comes from one meta-group position in its fragment |
| Coalescing.MetaIdStep | proj/src/derived_state.rs:418-444 | Ids never decrease along the sorted groups and grow by at most one per group |
| Coalescing.MetaIdsOnto | proj/src/derived_state.rs:418-444 | Ids are consecutive from 0: each id up to the last is some meta-group's |
| Coalescing.GroupCount | proj/src/derived_state.rs:454-456 | The count is the number of meta-groups when there are groups, and 1 when there are none |
| Coalescing.FirstRowsConsecutive | proj/src/derived_state.rs:411-413 | In the sorted list, the first locations of one meta-group's groups are consecutive rows of one fragment |
| Coalescing.EveryGroupHighlighted | proj/src/derived_state.rs:406-457 | Whatever the input order, the first location of every non-empty group lies inside a range filed under its fragment |
| Coalescing.WalkStraight | proj/src/derived_state.rs:424-428 | When no location turns back, the rows at one position of a meta-group go up by one per group, or down by one per group, from its first group |
| Coalescing.WalkBetween | proj/src/derived_state.rs:437-451 | When no location turns back, every group's row at a position lies between the meta-group's first and last rows there |
| Coalescing.LocationCovered | proj/src/derived_state.rs:437-451 | When no location turns back, every location of every group lies in a range of its meta-group's colour, filed under its fragment |
| Coalescing.EveryLocationHighlighted | proj/src/derived_state.rs:406-457 | Whatever the input order, when no location turns back, every location of every group is highlighted under its fragment |
| Coalescing.SpanRange | proj/src/derived_state.rs:477-481 | The range a meta-group evidently means at one position: it starts at the least and ends at the greatest row found there, both attained, so every row there is inside it |
| Coalescing.SpanAgrees | proj/src/derived_state.rs:437-451 | When no location turns back, the first-to-last range that is filed equals the least-to-greatest span |
| Coalescing.ZigZagUncovered | proj/src/derived_state.rs:437-451 | Three sorted groups form one meta-group whose rows at one position go 10, 11, 10; the range filed under fragment 1 misses row 11, while the span is 10..=11 |
| Linking.PairsBeforeMembers | proj/src/derived_state.rs:286-287 | The pairs visited before `(i, j)` are exactly the pairs of fragments below it in lexicographic order; `AllPairs` is every pair of fragments |
| Linking.PairsBeforeIncreasing | proj/src/derived_state.rs:286-287 | The nested loops visit the pairs in strictly increasing lexicographic order `(i, j)`, so each pair at most once |
| Linking.LinksBeforeIncreasing | proj/src/derived_state.rs:286-309 | The links found so far are in strictly increasing lexicographic order |
| Linking.IndexOf | proj/src/derived_state.rs:294-297 | The position of a row among the discovered rows, below their number exactly when present |
| Linking.NumberNew | proj/src/derived_state.rs:294-297 | `or_insert(len)` numbers a new row with the next number and keeps the others' numbers |
| Linking.DiscoverPair | proj/src/derived_state.rs:291-305 | A link keeps the map numbering the discovered rows by first discovery, and its row's id is its position |
| Linking.TipsStep | proj/src/derived_state.rs:304-305 | Setting the bottom colour of `i` and the top colour of `j` keeps every fragment's tips equal to the last link touching it, also when `i == j` |
| Linking.VisitPair | proj/src/derived_state.rs:287-307 | One inner-loop turn keeps the linking invariant |
| Linking.GenFragLinks | proj/src/derived_state.rs:277-310 | The links are exactly the pairs whose leftover row equals the first row, in loop order, each with its row's first-discovery id; the tips are those of the last link touching each fragment, and every link's tips carry its id |
| Linking.LinkIff | proj/src/derived_state.rs:289-290 | `(i, j)` is linked exactly when both are fragments and `i`'s leftover row (part 0) equals `j`'s first row (part 0) |
| Linking.LinksOrdered | proj/src/derived_state.rs:286-309 | Links come in strictly increasing lexicographic `(i, j)` order |
| Linking.DiscoveredMembers | proj/src/derived_state.rs:289-297 | A row gets an id exactly when some visited pair links through it |
| Linking.DiscoveredNoRepeats | proj/src/derived_state.rs:293-297 | Distinct link rows get distinct ids |
| Linking.FirstDiscoveryColour | proj/src/derived_state.rs:293-297 | A row's id is the number of link rows discovered before it |
| Linking.ColoursNumbered | proj/src/derived_state.rs:293-297 | Ids are numbered 0, 1, ... in order of first discovery |
| Linking.TipsIff | proj/src/derived_state.rs:304-305 | A fragment has a bottom (top) colour exactly when some link leaves (enters) it |
| Linking.TipsAgree | proj/src/derived_state.rs:299-305 | Each link's source bottom and target top hold a colour, the link's own id when it is the last link to touch them |
| Derived.GetRow | proj/src/derived_state.rs:210-219 | `Some` exactly when the fragment, expanded row and part indices are all in range, and then the row of that part of that expanded row |
| Derived.GetPartHead | proj/src/derived_state.rs:220-226 | `Some` exactly when the index is below the number of parts, and then the part head at that index. This is a plain accessor: no other lemma is about part heads |
| Derived.GetRowFlattened | proj/src/derived_state.rs:210-219 | The flattened entries are exactly the rows `get_row` returns at proved origins |
| UndoHistory.History.constructor | src/history.rs:22-31 | A history of one snapshot, the cursor at 0 and the given spec shown |
| UndoHistory.History.Undo | src/history.rs:35-42 | At 0 returns false and changes nothing; otherwise moves the cursor back one and returns true; the snapshots never change and the cursor stays in range |
| UndoHistory.History.Redo | src/history.rs:46-53 | At the last snapshot returns false and changes nothing; otherwise moves forward one and returns true; the snapshots never change and the cursor stays in range |
| UndoHistory.History.CompSpec | src/history.rs:55-57 | The snapshot shown is one of the history's |

## Left out

- `DerivedState::from_spec` is not part of this model. It depends on the composition `Spec` type (`expand`, `frag_pos`, `is_frag_muted`), which is not part of this model. It also involves `f32` canvas coordinates, `Rc<PartHeads>` and serde attributes. The stages it chains are modelled one by one, starting from the generated expanded rows.
- `run_len` (in `core/src/utils.rs`) is not part of this model. It is a function parameter whose only assumed property is that a run is no longer than its row.
- Bell names, `Stage` and string parsing are left out:
  - a bell is its index and a stage is a length;
  - `parse` is `from_iter_checked` applied to the already-filtered bells;
  - `Display`, `Debug` and `push_to_string` are left out.
- The library sorts (`sort_by`, `sort`) are modelled as an insertion sort. Nothing proved depends on which sorting algorithm is used: the results are shown equal whatever the order of equal elements.
- The `HashSet` of false groups is a `set`, and the `HashMap`s are `map`s. The unspecified iteration order is modelled by letting `CoalesceFalseRowGroups` take its groups in any order (`Coalescing.EveryGroupHighlighted` holds for every order).
- Machine integers are unbounded:
  - `usize` overflow is not modelled;
  - the `as isize` casts of the adjacency test are modelled as exact differences.
- `Expansion.NewExpandedRow`: `ph * row` is modelled as the unchecked product under a precondition that the stages match. The `Result` collection's error path is not modelled.
- `Linking.GenFragLinks`: the `unwrap` and indexing panics on empty fragments are excluded by a precondition (every fragment has an expanded row and every expanded row has a part).
- `Coalescing.EveryGroupHighlighted`: covers only the first location of each group. Other locations are covered only when no location turns back within a meta-group (`Coalescing.EveryLocationHighlighted`); see the coalescing row under "## Findings". The sweep `Coalescing.CoalesceFalseRowGroups` keeps the first-to-last ranges of the code as written. The corrected least-to-greatest range is the function `Coalescing.SpanRange`, and `Coalescing.SpanAgrees` shows it is the filed range whenever no location turns back.
- `Coalescing.AddRanges`: its `assert_eq!` checks are a precondition. `Coalescing.MetaShape` proves that the coalescing sweep always meets it.
- `UndoHistory.History.CompSpec`: states only that the shown snapshot is one of the history's. Its exact value, `history[current_undo_index]`, is the lookup itself. The constructor, `Undo` and `Redo` pin the cursor down exactly.
- The `full_comp` field of the history is left out, as is `FullComp`.
- `src/state/mod.rs` delegates to code that is not part of this model. `core/src/lib.rs` only re-exports modules.

## Findings

| source | as written | input that shows it | evidently intended | confidence | as-written member | corrected member |
|---|---|---|---|---|---|---|
| core/src/row.rs:192-200 | `accum` starts at 0 and is only ever updated by `accum *= ...`, so `fast_hash` returns 0 for every row | rows `12` and `21` (bells `[0, 1]` and `[1, 0]`) both hash to 0 | the documented perfect hash: the row read as a base-`stage` number, `accum += b * multiplier` | not executed | Rows.FastHashAsWritten, Rows.FastHashAsWrittenCollides | Rows.FastHash, Rows.FastHashInjective |
| proj/src/derived_state.rs:437-451 | each meta-group's range at a position runs from its first group's row to its last group's row, so a row that a middle group reaches by stepping out and back is outside it | sorted groups `[(0,5),(1,10)]`, `[(0,6),(1,11)]`, `[(0,7),(1,10)]` form one meta-group; fragment 1 gets only rows 10..=10, and the false row 11 is not highlighted. Such groups can arise because a location holds one row per part | every location of a meta-group highlighted: at each position, the range from the least to the greatest row there | not executed; medium: it needs a location to recur two groups later within a meta-group | Coalescing.ZigZagUncovered | Coalescing.SpanRange, Coalescing.SpanAgrees, Coalescing.EveryLocationHighlighted |
