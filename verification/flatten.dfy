/**
 * Flattening the composition for truth proving (`flatten_proved_rows` in
 * proj/src/derived_state.rs): every row of every part of every proved
 * expanded row, tagged with where it came from.
 */
module Flattening {
  import opened Rows
  import opened Locations
  import opened Expansion

  /** A flattened row and its origin, as the pair `(RowOrigin, &Row)`. */
  type Entry = (RowOrigin, Row)

  /** The order the flattening produces: by fragment, then row, then part. */
  predicate OriginLt(a: RowOrigin, b: RowOrigin)
  {
    a.frag < b.frag
    || (a.frag == b.frag && (a.row < b.row || (a.row == b.row && a.part < b.part)))
  }

  /** The origins strictly increase along `t`; in particular no origin repeats. */
  ghost predicate OriginsAscending(t: seq<Entry>)
  {
    forall i, j :: 0 <= i < j < |t| ==> OriginLt(t[i].0, t[j].0)
  }

  /** The entries of expanded row `r` of fragment `f`: one per part, in part order. */
  function PartsOf(e: ExpandedRow, f: nat, r: nat): (t: seq<Entry>)
    ensures |t| == |e.rows|
    ensures forall i :: 0 <= i < |t| ==> t[i] == (RowOrigin(i, f, r), e.rows[i])
  {
    seq(|e.rows|, i requires 0 <= i < |e.rows| => (RowOrigin(i, f, r), e.rows[i]))
  }

  /** The entries of the proved rows among the first `n` expanded rows of fragment `f`. */
  function RowsOf(exps: seq<ExpandedRow>, f: nat, n: nat): (t: seq<Entry>)
    requires n <= |exps|
    ensures forall i :: 0 <= i < |t| ==> t[i].0.frag == f && t[i].0.row < n
    ensures OriginsAscending(t)
  {
    if n == 0 then []
    else
      var earlier := RowsOf(exps, f, n - 1);
      var here := if exps[n - 1].isProved then PartsOf(exps[n - 1], f, n - 1) else [];
      assert forall i, j :: 0 <= i < |earlier| && 0 <= j < |here| ==> OriginLt(earlier[i].0, here[j].0);
      earlier + here
  }

  /** The entries of the first `n` fragments. */
  function FragsOf(gen: seq<seq<ExpandedRow>>, n: nat): (t: seq<Entry>)
    requires n <= |gen|
    ensures forall i :: 0 <= i < |t| ==> t[i].0.frag < n
    ensures OriginsAscending(t)
  {
    if n == 0 then []
    else
      var earlier := FragsOf(gen, n - 1);
      var here := RowsOf(gen[n - 1], n - 1, |gen[n - 1]|);
      assert forall i, j :: 0 <= i < |earlier| && 0 <= j < |here| ==> OriginLt(earlier[i].0, here[j].0);
      earlier + here
  }

  /** How many of the first `n` expanded rows are proved. */
  function ProvedIn(exps: seq<ExpandedRow>, n: nat): nat
    requires n <= |exps|
  {
    if n == 0 then 0 else ProvedIn(exps, n - 1) + (if exps[n - 1].isProved then 1 else 0)
  }

  /** How many expanded rows of the first `n` fragments are proved. */
  function ProvedCount(gen: seq<seq<ExpandedRow>>, n: nat): nat
    requires n <= |gen|
  {
    if n == 0 then 0 else ProvedCount(gen, n - 1) + ProvedIn(gen[n - 1], |gen[n - 1]|)
  }

  /**
   * `flatten_proved_rows`: walks fragments, their expanded rows and their
   * parts, skipping expanded rows that are not proved, and counts the proved
   * expanded rows once each (not once per part).
   */
  method FlattenProvedRows(gen: seq<seq<ExpandedRow>>) returns (flat: seq<Entry>, partLen: nat)
    ensures flat == FragsOf(gen, |gen|)
    ensures partLen == ProvedCount(gen, |gen|)
  {
    flat := [];
    partLen := 0;
    for f := 0 to |gen|
      invariant flat == FragsOf(gen, f) && partLen == ProvedCount(gen, f)
    {
      var rows := gen[f];
      for r := 0 to |rows|
        invariant flat == FragsOf(gen, f) + RowsOf(rows, f, r)
        invariant partLen == ProvedCount(gen, f) + ProvedIn(rows, r)
      {
        var e := rows[r];
        if !e.isProved {
          continue;
        }
        for p := 0 to |e.rows|
          invariant flat == FragsOf(gen, f) + RowsOf(rows, f, r) + PartsOf(e, f, r)[..p]
        {
          flat := flat + [(RowOrigin(p, f, r), e.rows[p])];
        }
        partLen := partLen + 1;
      }
    }
  }

  /** Origin `o` names a part of a proved expanded row of `gen`. */
  ghost predicate IsProvedOrigin(gen: seq<seq<ExpandedRow>>, o: RowOrigin)
  {
    o.frag < |gen| && o.row < |gen[o.frag]| && gen[o.frag][o.row].isProved
    && o.part < |gen[o.frag][o.row].rows|
  }

  lemma {:induction false} RowsOfMembers(exps: seq<ExpandedRow>, f: nat, n: nat, o: RowOrigin, row: Row)
    requires n <= |exps|
    ensures (o, row) in RowsOf(exps, f, n) <==>
      o.frag == f && o.row < n && exps[o.row].isProved && o.part < |exps[o.row].rows|
      && row == exps[o.row].rows[o.part]
  {
    if n > 0 {
      RowsOfMembers(exps, f, n - 1, o, row);
      var here := if exps[n - 1].isProved then PartsOf(exps[n - 1], f, n - 1) else [];
      assert RowsOf(exps, f, n) == RowsOf(exps, f, n - 1) + here;
      if o.frag == f && o.row == n - 1 && exps[o.row].isProved && o.part < |exps[o.row].rows| {
        assert here[o.part] == (o, exps[o.row].rows[o.part]);
      }
    }
  }

  lemma {:induction false} FragsOfMembers(gen: seq<seq<ExpandedRow>>, n: nat, o: RowOrigin, row: Row)
    requires n <= |gen|
    ensures (o, row) in FragsOf(gen, n) <==>
      o.frag < n && IsProvedOrigin(gen, o) && row == gen[o.frag][o.row].rows[o.part]
  {
    if n > 0 {
      FragsOfMembers(gen, n - 1, o, row);
      RowsOfMembers(gen[n - 1], n - 1, |gen[n - 1]|, o, row);
      assert FragsOf(gen, n) == FragsOf(gen, n - 1) + RowsOf(gen[n - 1], n - 1, |gen[n - 1]|);
    }
  }

  /**
   * The flattening holds exactly one entry per part of each proved expanded
   * row, with that part's row, and no entry twice.
   */
  lemma FlattenMembers(gen: seq<seq<ExpandedRow>>, o: RowOrigin, row: Row)
    ensures (o, row) in FragsOf(gen, |gen|) <==>
      IsProvedOrigin(gen, o) && row == gen[o.frag][o.row].rows[o.part]
    ensures OriginsAscending(FragsOf(gen, |gen|))
  {
    FragsOfMembers(gen, |gen|, o, row);
  }

  /** Every expanded row has one row per part: `parts` of them. */
  ghost predicate UniformParts(gen: seq<seq<ExpandedRow>>, parts: nat)
  {
    forall f, r :: 0 <= f < |gen| && 0 <= r < |gen[f]| ==> |gen[f][r].rows| == parts
  }

  lemma Distribute(p: nat, a: nat, b: nat)
    ensures p * (a + b) == p * a + p * b
  {
  }

  lemma {:induction false} RowsOfLength(exps: seq<ExpandedRow>, f: nat, n: nat, parts: nat)
    requires n <= |exps|
    requires forall r :: 0 <= r < |exps| ==> |exps[r].rows| == parts
    ensures |RowsOf(exps, f, n)| == parts * ProvedIn(exps, n)
  {
    if n > 0 {
      RowsOfLength(exps, f, n - 1, parts);
      Distribute(parts, ProvedIn(exps, n - 1), if exps[n - 1].isProved then 1 else 0);
    }
  }

  lemma {:induction false} FragsOfLength(gen: seq<seq<ExpandedRow>>, n: nat, parts: nat)
    requires n <= |gen| && UniformParts(gen, parts)
    ensures |FragsOf(gen, n)| == parts * ProvedCount(gen, n)
  {
    if n > 0 {
      FragsOfLength(gen, n - 1, parts);
      var exps := gen[n - 1];
      assert forall r :: 0 <= r < |exps| ==> |exps[r].rows| == parts;
      RowsOfLength(exps, n - 1, |exps|, parts);
      assert |FragsOf(gen, n)| == |FragsOf(gen, n - 1)| + |RowsOf(exps, n - 1, |exps|)|;
      Distribute(parts, ProvedCount(gen, n - 1), ProvedIn(exps, |exps|));
    }
  }

  /** `part_len` counts expanded rows, so with `parts` parts there are `parts * part_len` rows to prove. */
  lemma FlattenLength(gen: seq<seq<ExpandedRow>>, parts: nat)
    requires UniformParts(gen, parts)
    ensures |FragsOf(gen, |gen|)| == parts * ProvedCount(gen, |gen|)
  {
    FragsOfLength(gen, |gen|, parts);
  }
}
