/**
 * Expanded rows and music highlighting (proj/src/derived_state.rs).
 *
 * One on-screen row stands for one row per part: the row permuted by each part
 * head.  For each bell position the expanded row records which parts show a
 * run of four or more bells at the front or the back there.
 */
module Expansion {
  import opened Wrappers
  import opened Rows

  /** One on-screen row: its labels and flags, one row per part and the music per position. */
  datatype ExpandedRow = ExpandedRow(
    callStr: Option<string>,
    methodStr: Option<string>,
    isLeadEnd: bool,
    isProved: bool,
    rows: seq<Row>,
    musicHighlights: seq<seq<nat>>)

  /** The bells read from the back, as `bells().rev()` yields them. */
  function Reverse(s: seq<Bell>): (r: seq<Bell>)
    ensures |r| == |s|
    ensures forall i :: 0 <= i < |s| ==> r[i] == s[|s| - 1 - i]
  {
    seq(|s|, i requires 0 <= i < |s| => s[|s| - 1 - i])
  }

  /** `run_len` is not part of this model; all it relies on is that a run is no longer than its row. */
  ghost predicate RunLenBounded(runLen: seq<Bell> -> nat)
  {
    forall s :: runLen(s) <= |s|
  }

  /**
   * Part row `r` has music at position `p`: inside a front run of at least 4,
   * or inside a back run of at least 4 but not before the end of the front run
   * (`p >= max(stage - back, front)`).
   */
  predicate MusicAt(r: Row, stage: nat, p: nat, runLen: seq<Bell> -> nat)
  {
    var front := runLen(r.bells);
    var back := runLen(Reverse(r.bells));
    (front >= 4 && p < front) || (back >= 4 && p >= front && p + back >= stage)
  }

  /** The parts among the first `n` that have music at position `p`, in ascending order. */
  function MusicParts(rows: seq<Row>, stage: nat, p: nat, runLen: seq<Bell> -> nat, n: nat): (parts: seq<nat>)
    requires n <= |rows|
    ensures forall k :: k in parts <==> 0 <= k < n && MusicAt(rows[k], stage, p, runLen)
    ensures forall i, j :: 0 <= i < j < |parts| ==> parts[i] < parts[j]
  {
    if n == 0 then []
    else
      var earlier := MusicParts(rows, stage, p, runLen, n - 1);
      assert forall i :: 0 <= i < |earlier| ==> earlier[i] < n - 1 by {
        forall i | 0 <= i < |earlier| ensures earlier[i] < n - 1 {
          assert earlier[i] in earlier;
        }
      }
      if MusicAt(rows[n - 1], stage, p, runLen) then earlier + [n - 1] else earlier
  }

  /** After the first `n` parts, position `p` lists exactly the parts with music there. */
  ghost predicate MusicUpTo(music: seq<seq<nat>>, rows: seq<Row>, stage: nat, runLen: seq<Bell> -> nat, n: nat)
    requires n <= |rows|
  {
    |music| == stage
    && forall p :: 0 <= p < stage ==> music[p] == MusicParts(rows, stage, p, runLen, n)
  }

  /** `after` is `before` with `part` pushed onto the lists at positions `lo..hi`. */
  ghost predicate PushedOnto(after: seq<seq<nat>>, before: seq<seq<nat>>, part: nat, lo: nat, hi: nat)
  {
    |after| == |before|
    && forall q :: 0 <= q < |before| ==> after[q] == before[q] + (if lo <= q < hi then [part] else [])
  }

  /** `music[lo..hi].iter_mut().for_each(|m| m.push(part))`. */
  method PushPart(music: seq<seq<nat>>, part: nat, lo: nat, hi: nat) returns (after: seq<seq<nat>>)
    requires lo <= hi <= |music|
    ensures PushedOnto(after, music, part, lo, hi)
  {
    after := music;
    for p := lo to hi
      invariant PushedOnto(after, music, part, lo, p)
    {
      after := after[p := after[p] + [part]];
    }
  }

  /**
   * Pushing part `n` onto the positions of its front run (`mid` from
   * `before`) and then onto those of its back run (`after` from `mid`)
   * advances `MusicUpTo` by one part.
   */
  lemma MusicStep(before: seq<seq<nat>>, mid: seq<seq<nat>>, after: seq<seq<nat>>, rows: seq<Row>, stage: nat,
                  runLen: seq<Bell> -> nat, n: nat, front: nat, back: nat)
    requires n < |rows| && MusicUpTo(before, rows, stage, runLen, n)
    requires front == runLen(rows[n].bells) && back == runLen(Reverse(rows[n].bells))
    requires back <= stage
    requires PushedOnto(mid, before, n, 0, if front >= 4 then front else 0)
    requires PushedOnto(after, mid, n, Max(stage - back, front), if back >= 4 then stage else 0)
    ensures MusicUpTo(after, rows, stage, runLen, n + 1)
  {
    forall p | 0 <= p < stage ensures after[p] == MusicParts(rows, stage, p, runLen, n + 1) {
      assert mid[p] == before[p] + (if 0 <= p < (if front >= 4 then front else 0) then [n] else []);
    }
  }

  /**
   * One iteration of `calculate_music`: part `part` is pushed onto the
   * positions of its front run, then onto those of its back run, starting no
   * earlier than where the front run ended.
   */
  method PushPartMusic(music: seq<seq<nat>>, allRows: seq<Row>, stage: nat, runLen: seq<Bell> -> nat, part: nat)
    returns (music': seq<seq<nat>>)
    requires RunLenBounded(runLen) && part < |allRows| && |allRows[part].bells| == stage
    requires MusicUpTo(music, allRows, stage, runLen, part)
    ensures MusicUpTo(music', allRows, stage, runLen, part + 1)
  {
    var r := allRows[part];
    var runLenF := runLen(r.bells);
    music' := music;
    if runLenF >= 4 {
      music' := PushPart(music', part, 0, runLenF);
    }
    ghost var mid := music';
    var runLenB := runLen(Reverse(r.bells));
    var lo := Max(stage - runLenB, runLenF);
    if runLenB >= 4 {
      music' := PushPart(music', part, lo, stage);
    }
    MusicStep(music, mid, music', allRows, stage, runLen, part, runLenF, runLenB);
  }

  /** `calculate_music`: one list per position, listing the parts with music there in ascending order. */
  method CalculateMusic(allRows: seq<Row>, stage: nat, runLen: seq<Bell> -> nat) returns (music: seq<seq<nat>>)
    requires RunLenBounded(runLen)
    requires forall k :: 0 <= k < |allRows| ==> |allRows[k].bells| == stage
    ensures MusicUpTo(music, allRows, stage, runLen, |allRows|)
  {
    music := seq(stage, _ => []);
    for part := 0 to |allRows|
      invariant MusicUpTo(music, allRows, stage, runLen, part)
    {
      music := PushPartMusic(music, allRows, stage, runLen, part);
    }
  }

  /**
   * `ExpandedRow::new`: the row under every part head, its flags and labels
   * unchanged, and the music of the resulting rows.
   */
  method NewExpandedRow(row: Row, callStr: Option<string>, methodStr: Option<string>, isLeadEnd: bool,
                        partHeads: seq<Row>, isProved: bool, runLen: seq<Bell> -> nat) returns (e: ExpandedRow)
    requires RunLenBounded(runLen)
    requires AllBelow(row.bells, StageOf(row))
    requires forall k :: 0 <= k < |partHeads| ==> StageOf(partHeads[k]) == StageOf(row)
    ensures e.callStr == callStr && e.methodStr == methodStr
    ensures e.isLeadEnd == isLeadEnd && e.isProved == isProved
    ensures |e.rows| == |partHeads|
    ensures forall k :: 0 <= k < |partHeads| ==>
      AllBelow(row.bells, StageOf(partHeads[k])) && e.rows[k] == MulUnchecked(partHeads[k], row)
    ensures forall k :: 0 <= k < |partHeads| ==> StageOf(e.rows[k]) == StageOf(row)
    ensures Valid(row) && (forall k :: 0 <= k < |partHeads| ==> Valid(partHeads[k]))
      ==> forall k :: 0 <= k < |partHeads| ==> Valid(e.rows[k])
    ensures MusicUpTo(e.musicHighlights, e.rows, StageOf(row), runLen, |e.rows|)
  {
    var allRows := seq(|partHeads|, k requires 0 <= k < |partHeads| => MulUnchecked(partHeads[k], row));
    if Valid(row) && (forall k :: 0 <= k < |partHeads| ==> Valid(partHeads[k])) {
      forall k | 0 <= k < |partHeads| ensures Valid(allRows[k]) {
        MulValid(partHeads[k], row);
      }
    }
    var music := CalculateMusic(allRows, StageOf(row), runLen);
    e := ExpandedRow(callStr, methodStr, isLeadEnd, isProved, allRows, music);
  }
}
