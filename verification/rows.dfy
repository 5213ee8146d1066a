/**
 * Rows of bells and the permutation algebra over them (core/src/row.rs).
 *
 * A bell is its zero-based index and a stage is a row length.  A `Row` is a
 * sequence of bells; it is only a *valid* row when it is a permutation of
 * `0..stage`.  The unchecked constructors and `MulUnchecked` can build invalid
 * rows, so validity is a predicate rather than part of the type.
 */
module Rows {
  import opened Wrappers

  /** A bell, identified by its zero-based index. */
  type Bell = nat

  /** The number of bells a row is rung on. */
  type Stage = nat

  /** Why a sequence of bells is not a row. */
  datatype InvalidRowError =
    | DuplicateBell(bell: Bell)
    | BellOutOfStage(bell: Bell, stage: Stage)

  /** Two rows of different stages were combined. */
  datatype IncompatibleStages = IncompatibleStages(lhsStage: Stage, rhsStage: Stage)

  /** A sequence of bells; see `Valid` for when it is a row of the Framework. */
  datatype Row = Row(bells: seq<Bell>)

  /** `Row::stage`: the number of bells. */
  function StageOf(r: Row): Stage { |r.bells| }

  // ---------------------------------------------------------------------------
  // Validity
  // ---------------------------------------------------------------------------

  /** Every bell of `bells` is below `n`. */
  predicate AllBelow(bells: seq<Bell>, n: nat) {
    forall i :: 0 <= i < |bells| ==> bells[i] < n
  }

  /** No bell occurs twice in `bells`. */
  predicate Distinct(bells: seq<Bell>) {
    forall i, j :: 0 <= i < j < |bells| ==> bells[i] != bells[j]
  }

  /** What the checklist scan accepts: every bell within the stage, none twice. */
  predicate Valid(r: Row) {
    AllBelow(r.bells, |r.bells|) && Distinct(r.bells)
  }

  /** The Framework's definition: every bell of the stage occurs exactly once. */
  ghost predicate EveryBellOnce(bells: seq<Bell>) {
    forall b :: 0 <= b < |bells| ==> multiset(bells)[b] == 1
  }

  /** The set of bells below `n`. */
  ghost function BellsBelow(n: nat): set<Bell>
  {
    if n == 0 then {} else BellsBelow(n - 1) + {n - 1}
  }

  lemma {:induction false} BellsBelowFacts(n: nat)
    ensures |BellsBelow(n)| == n
    ensures forall b :: b in BellsBelow(n) <==> 0 <= b < n
  {
    if n > 0 {
      BellsBelowFacts(n - 1);
      assert BellsBelow(n) == BellsBelow(n - 1) + {n - 1};
      assert BellsBelow(n - 1) * {n - 1} == {};

    }
  }

  /** The set of bells occurring in `bells`. */
  ghost function Elems(bells: seq<Bell>): set<Bell>
  {
    set b | b in bells
  }

  lemma {:induction false} ElemsCard(bells: seq<Bell>)
    ensures |Elems(bells)| <= |bells|
    ensures Distinct(bells) ==> |Elems(bells)| == |bells|
  {
    if bells != [] {
      var init := bells[..|bells| - 1];
      var last := bells[|bells| - 1];
      ElemsCard(init);
      assert bells == init + [last];
      assert Elems(bells) == Elems(init) + {last};
      if Distinct(bells) {
        assert Distinct(init);
        forall i | 0 <= i < |init| ensures init[i] != last {
          assert bells[i] != bells[|bells| - 1];
        }
        assert last !in Elems(init);
      }
    }
  }

  lemma {:induction false} SubsetCard(a: set<Bell>, b: set<Bell>)
    requires a <= b
    ensures |a| <= |b|
    ensures |b| <= |a| ==> a == b
    decreases |b|
  {
    if a != {} {
      var x :| x in a;
      SubsetCard(a - {x}, b - {x});
      assert |a - {x}| == |a| - 1 && |b - {x}| == |b| - 1;
      if |b| <= |a| {
        assert a == (a - {x}) + {x} && b == (b - {x}) + {x};
      }
    } else if b != {} {
      var x :| x in b;
      assert |b - {x}| == |b| - 1;
    }
  }

  /** A valid row contains every bell of its stage (the pigeonhole principle). */
  lemma ValidOnto(r: Row)
    requires Valid(r)
    ensures forall b :: 0 <= b < |r.bells| ==> b in r.bells
  {
    ElemsCard(r.bells);
    BellsBelowFacts(|r.bells|);
    assert Elems(r.bells) <= BellsBelow(|r.bells|);
    SubsetCard(Elems(r.bells), BellsBelow(|r.bells|));
    forall b | 0 <= b < |r.bells| ensures b in r.bells {
      assert b in Elems(r.bells);
    }
  }

  lemma {:induction false} DistinctAtMostOnce(bells: seq<Bell>, b: Bell)
    requires Distinct(bells)
    ensures multiset(bells)[b] <= 1
  {
    if bells != [] {
      var init := bells[..|bells| - 1];
      var last := bells[|bells| - 1];
      assert bells == init + [last];
      DistinctAtMostOnce(init, b);
      if last == b {
        forall i | 0 <= i < |init| ensures init[i] != b {
          assert bells[i] != bells[|bells| - 1];
        }
        assert b !in multiset(init);
      }
    }
  }

  lemma TwoOccurrences(bells: seq<Bell>, i: nat, j: nat)
    requires i < j < |bells| && bells[i] == bells[j]
    ensures multiset(bells)[bells[i]] >= 2
  {
    assert bells == bells[..j] + bells[j..];
    assert bells[..j][i] == bells[i];
    assert bells[j..][0] == bells[j];
  }

  /**
   * The checklist scan's acceptance condition is the Framework's definition of
   * a row: the bells in range and pairwise distinct exactly when every bell of
   * the stage occurs once.
   */
  lemma ValidIffEveryBellOnce(bells: seq<Bell>)
    ensures Valid(Row(bells)) <==> EveryBellOnce(bells)
  {
    var n := |bells|;
    if Valid(Row(bells)) {
      ValidOnto(Row(bells));
      forall b | 0 <= b < n ensures multiset(bells)[b] == 1 {
        assert b in bells;
        DistinctAtMostOnce(bells, b);
      }
    }
    if EveryBellOnce(bells) {
      BellsBelowFacts(n);
      assert BellsBelow(n) <= Elems(bells) by {
        forall b | b in BellsBelow(n) ensures b in Elems(bells) {
          assert b in multiset(bells);
        }
      }
      ElemsCard(bells);
      SubsetCard(BellsBelow(n), Elems(bells));
      forall i | 0 <= i < n ensures bells[i] < n {
        assert bells[i] in Elems(bells);
      }
      forall i, j | 0 <= i < j < n ensures bells[i] != bells[j] {
        if bells[i] == bells[j] {
          TwoOccurrences(bells, i, j);
          assert false;
        }
      }
    }
  }

  /** The bells of a valid row are exactly those below its stage. */
  lemma StageBellsOfValid(r: Row)
    requires Valid(r)
    ensures forall b: Bell :: b in r.bells <==> b < StageOf(r)
  {
    ValidIffEveryBellOnce(r.bells);
    forall b: Bell | b < StageOf(r) ensures b in r.bells {
      assert multiset(r.bells)[b] == 1;
    }
  }

  // ---------------------------------------------------------------------------
  // Construction
  // ---------------------------------------------------------------------------

  /** The first bell of `bells` that the checklist scan rejects is at index `k`. */
  ghost predicate FirstOffender(bells: seq<Bell>, k: nat) {
    k < |bells| && Distinct(bells[..k]) && AllBelow(bells[..k], |bells|)
    && (bells[k] >= |bells| || bells[k] in bells[..k])
  }

  /** The error the scan reports for the bell at index `k`. */
  function OffenceAt(bells: seq<Bell>, k: nat): InvalidRowError
    requires k < |bells|
  {
    if bells[k] >= |bells| then BellOutOfStage(bells[k], |bells|) else DuplicateBell(bells[k])
  }

  /**
   * `check_validity`: scans the bells in order, ticking them off in a checklist
   * of length `stage`.  The first bell outside the stage or already ticked is
   * reported; otherwise the bells form a row.
   */
  method CheckValidity(bells: seq<Bell>) returns (r: Result<Row, InvalidRowError>)
    ensures r.Ok? <==> EveryBellOnce(bells)
    ensures r.Ok? ==> r.value == Row(bells) && Valid(r.value)
    ensures r.Err? ==> exists k :: FirstOffender(bells, k) && r.error == OffenceAt(bells, k)
  {
    var stage := |bells|;
    var checklist := new bool[stage](_ => false);
    for i := 0 to stage
      invariant forall b :: 0 <= b < stage ==> (checklist[b] <==> b in bells[..i])
      invariant AllBelow(bells[..i], stage) && Distinct(bells[..i])
    {
      var b := bells[i];
      assert bells[..i + 1] == bells[..i] + [b];
      if b >= stage {
        assert FirstOffender(bells, i);
        ValidIffEveryBellOnce(bells);
        return Err(BellOutOfStage(b, stage));
      } else if checklist[b] {
        assert FirstOffender(bells, i);
        assert !Valid(Row(bells)) by {
          var j :| 0 <= j < i && bells[j] == b;
        }
        ValidIffEveryBellOnce(bells);
        return Err(DuplicateBell(b));
      } else {
        checklist[b] := true;
      }
    }
    assert bells[..stage] == bells;
    ValidIffEveryBellOnce(bells);
    r := Ok(Row(bells));
  }

  /** Before the first offender every bell is within the stage and new. */
  lemma CleanBeforeFirstOffender(bells: seq<Bell>, k: nat, j: nat)
    requires FirstOffender(bells, k) && j < k
    ensures bells[j] < |bells| && bells[j] !in bells[..j]
  {
    assert bells[..k][j] == bells[j];
    forall i | 0 <= i < j ensures bells[i] != bells[j] {
      assert bells[..k][i] == bells[i];
    }
  }

  /**
   * The first offender is unique, so the existential in `CheckValidity`'s
   * postcondition pins the reported error down.
   */
  lemma FirstOffenderUnique(bells: seq<Bell>, k: nat, k': nat)
    requires FirstOffender(bells, k) && FirstOffender(bells, k')
    ensures k == k'
  {
    if k < k' {
      CleanBeforeFirstOffender(bells, k', k);
      assert false;
    } else if k' < k {
      CleanBeforeFirstOffender(bells, k, k');
      assert false;
    }
  }

  /** "112345" is rejected because bell 1 (index 0) appears twice. */
  lemma DuplicateBellExample()
    ensures FirstOffender([0, 0, 1, 2, 3, 4], 1)
    ensures OffenceAt([0, 0, 1, 2, 3, 4], 1) == DuplicateBell(0)
  {
    assert [0, 0, 1, 2, 3, 4][..1] == [0];
  }

  /** "12745" is rejected because bell 7 (index 6) is outside a stage of 5. */
  lemma BellOutOfStageExample()
    ensures FirstOffender([0, 1, 6, 3, 4], 2)
    ensures OffenceAt([0, 1, 6, 3, 4], 2) == BellOutOfStage(6, 5)
  {
    assert [0, 1, 6, 3, 4][..2] == [0, 1];
  }

  /** `from_vec` (and `from_iter_checked` once the bells are collected) checks validity. */
  method FromVec(bells: seq<Bell>) returns (r: Result<Row, InvalidRowError>)
    ensures r.Ok? <==> EveryBellOnce(bells)
    ensures r.Ok? ==> r.value == Row(bells) && Valid(r.value)
    ensures r.Err? ==> exists k :: FirstOffender(bells, k) && r.error == OffenceAt(bells, k)
  {
    r := CheckValidity(bells);
  }

  /** Rounds: every bell in its home position, the identity permutation. */
  function Rounds(stage: Stage): (r: Row)
    ensures StageOf(r) == stage && Valid(r)
    ensures forall i :: 0 <= i < stage ==> r.bells[i] == i
  {
    Row(seq(stage, i => i))
  }

  /** Backrounds: the bells in descending order. */
  function Backrounds(stage: Stage): (r: Row)
    ensures StageOf(r) == stage && Valid(r)
    ensures forall i :: 0 <= i < stage ==> r.bells[i] == stage - 1 - i
    ensures forall i, j :: 0 <= i < j < stage ==> r.bells[i] > r.bells[j]
  {
    Row(seq(stage, i requires 0 <= i < stage => stage - 1 - i))
  }

  /** Bells at even indices first, each parity ascending. */
  predicate EvensThenOdds(bells: seq<Bell>) {
    forall i, j :: 0 <= i < j < |bells| ==>
      (bells[i] % 2 == 0 && bells[j] % 2 == 1)
      || (bells[i] % 2 == bells[j] % 2 && bells[i] < bells[j])
  }

  lemma QueensShape(bells: seq<Bell>, half: nat)
    requires half == (|bells| + 1) / 2
    requires forall i :: 0 <= i < half ==> bells[i] == 2 * i
    requires forall i :: half <= i < |bells| ==> bells[i] == 2 * (i - half) + 1
    ensures Valid(Row(bells)) && EvensThenOdds(bells)
  {
    forall i, j | 0 <= i < j < |bells|
      ensures bells[i] != bells[j]
      ensures (bells[i] % 2 == 0 && bells[j] % 2 == 1)
        || (bells[i] % 2 == bells[j] % 2 && bells[i] < bells[j])
    {
      if j < half {
        assert bells[i] % 2 == 0 && bells[j] % 2 == 0;
      } else if half <= i {
        assert bells[i] % 2 == 1 && bells[j] % 2 == 1;
      } else {
        assert bells[i] % 2 == 0 && bells[j] % 2 == 1;
      }
    }
  }

  /** Queens: the even-numbered positions' bells ascending, then the odd ones. */
  function Queens(stage: Stage): (r: Row)
    ensures StageOf(r) == stage && Valid(r)
    ensures EvensThenOdds(r.bells)
  {
    var evens := seq((stage + 1) / 2, i => 2 * i);
    var odds := seq(stage / 2, i => 2 * i + 1);
    var bells := evens + odds;
    QueensShape(bells, |evens|);
    Row(bells)
  }

  /** `is_rounds`: the in-place comparison with rounds. */
  function IsRounds(r: Row): (b: bool)
    ensures b <==> r == Rounds(StageOf(r))
  {
    var b := forall i | 0 <= i < |r.bells| :: r.bells[i] == i;
    assert b ==> r.bells == Rounds(StageOf(r)).bells;
    b
  }

  // ---------------------------------------------------------------------------
  // Multiplication and inversion
  // ---------------------------------------------------------------------------

  /** `mul_unchecked`: uses `rhs` to permute `lhs`, without comparing stages. */
  function MulUnchecked(lhs: Row, rhs: Row): (r: Row)
    requires AllBelow(rhs.bells, |lhs.bells|)
    ensures StageOf(r) == StageOf(rhs)
    ensures forall i {:trigger r.bells[i]} :: 0 <= i < |rhs.bells| ==> r.bells[i] == lhs.bells[rhs.bells[i]]
  {
    Row(seq(|rhs.bells|, i requires 0 <= i < |rhs.bells| => lhs.bells[rhs.bells[i]]))
  }

  /** The product of two valid rows of one stage is a valid row of that stage. */
  lemma MulValid(lhs: Row, rhs: Row)
    ensures Valid(lhs) && Valid(rhs) && StageOf(lhs) == StageOf(rhs) ==> Valid(MulUnchecked(lhs, rhs))
  {
    if !(Valid(lhs) && Valid(rhs) && StageOf(lhs) == StageOf(rhs)) {
      return;
    }
    var p := MulUnchecked(lhs, rhs);
    forall i, j | 0 <= i < j < |p.bells| ensures p.bells[i] != p.bells[j] {
      assert rhs.bells[i] != rhs.bells[j];
      if rhs.bells[i] < rhs.bells[j] {
        assert lhs.bells[rhs.bells[i]] != lhs.bells[rhs.bells[j]];
      } else {
        assert lhs.bells[rhs.bells[j]] != lhs.bells[rhs.bells[i]];
      }
    }
  }

  /** Multiplication of rows of one stage is associative. */
  lemma MulAssoc(a: Row, b: Row, c: Row)
    requires Valid(a) && Valid(b) && Valid(c)
    requires StageOf(a) == StageOf(b) == StageOf(c)
    ensures MulUnchecked(MulUnchecked(a, b), c) == MulUnchecked(a, MulUnchecked(b, c))
  {
    var lhs := MulUnchecked(MulUnchecked(a, b), c);
    var rhs := MulUnchecked(a, MulUnchecked(b, c));
    assert lhs.bells == rhs.bells;
  }

  /** Rounds is a two-sided identity for rows of its stage. */
  lemma MulRounds(x: Row)
    requires AllBelow(x.bells, |x.bells|)
    ensures MulUnchecked(Rounds(StageOf(x)), x) == x
    ensures MulUnchecked(x, Rounds(StageOf(x))) == x
  {
    assert MulUnchecked(Rounds(StageOf(x)), x).bells == x.bells;
    assert MulUnchecked(x, Rounds(StageOf(x))).bells == x.bells;
  }

  /** `test_err`: `Ok` exactly when the two stages agree. */
  function TestErr(lhsStage: Stage, rhsStage: Stage): (r: Result<(), IncompatibleStages>)
    ensures r.Ok? <==> lhsStage == rhsStage
    ensures r.Err? ==> r.error == IncompatibleStages(lhsStage, rhsStage)
  {
    if lhsStage == rhsStage then Ok(()) else Err(IncompatibleStages(lhsStage, rhsStage))
  }

  /** `&lhs * &rhs`: the stage check, then `mul_unchecked`. */
  function Mul(lhs: Row, rhs: Row): (r: Result<Row, IncompatibleStages>)
    requires AllBelow(rhs.bells, |rhs.bells|)
    ensures r.Err? <==> StageOf(lhs) != StageOf(rhs)
    ensures r.Err? ==> r.error == IncompatibleStages(StageOf(lhs), StageOf(rhs))
    ensures r.Ok? ==> r.value == MulUnchecked(lhs, rhs) && StageOf(r.value) == StageOf(lhs)
    ensures r.Ok? && Valid(lhs) && Valid(rhs) ==> Valid(r.value)
  {
    match TestErr(StageOf(lhs), StageOf(rhs))
    case Err(e) => Err(e)
    case Ok(_) =>
      MulValid(lhs, rhs);
      Ok(MulUnchecked(lhs, rhs))
  }

  /**
   * A sequence that sends every bell of `x` back to its position is a valid
   * row and a two-sided inverse of `x`.
   */
  lemma InverseLaws(x: Row, inv: Row)
    requires Valid(x) && StageOf(inv) == StageOf(x)
    requires forall i :: 0 <= i < |x.bells| ==> inv.bells[x.bells[i]] == i
    ensures Valid(inv)
    ensures MulUnchecked(x, inv) == Rounds(StageOf(x))
    ensures MulUnchecked(inv, x) == Rounds(StageOf(x))
  {
    var n := |x.bells|;
    ValidOnto(x);
    assert forall p :: 0 <= p < n ==> inv.bells[p] < n && x.bells[inv.bells[p]] == p by {
      forall p | 0 <= p < n ensures inv.bells[p] < n && x.bells[inv.bells[p]] == p {
        assert p in x.bells;
        var i :| 0 <= i < n && x.bells[i] == p;
      }
    }
    forall p, q | 0 <= p < q < n ensures inv.bells[p] != inv.bells[q] {
      assert x.bells[inv.bells[p]] == p && x.bells[inv.bells[q]] == q;
    }
    assert MulUnchecked(x, inv).bells == Rounds(n).bells;
    assert MulUnchecked(inv, x).bells == Rounds(n).bells;
  }

  /** `!x`: places bell `i` at position `x[i]` of the output. */
  method Inverse(x: Row) returns (inv: Row)
    requires Valid(x)
    ensures StageOf(inv) == StageOf(x) && Valid(inv)
    ensures forall i :: 0 <= i < |x.bells| ==> inv.bells[x.bells[i]] == i
    ensures MulUnchecked(x, inv) == Rounds(StageOf(x))
    ensures MulUnchecked(inv, x) == Rounds(StageOf(x))
  {
    var n := |x.bells|;
    var invBells := new Bell[n](_ => 0);
    for i := 0 to n
      invariant forall k :: 0 <= k < i ==> invBells[x.bells[k]] == k
    {
      invBells[x.bells[i]] := i;
    }
    inv := Row(invBells[..]);
    InverseLaws(x, inv);
  }

  // ---------------------------------------------------------------------------
  // Closure
  // ---------------------------------------------------------------------------

  /** `x` multiplied by itself: Power(x, 1) == x, Power(x, k + 1) == Power(x, k) * x. */
  function Power(x: Row, k: nat): (r: Row)
    requires Valid(x) && k >= 1
    ensures Valid(r) && StageOf(r) == StageOf(x)
    decreases k
  {
    if k == 1 then x
    else
      var p := Power(x, k - 1);
      MulValid(p, x);
      MulUnchecked(p, x)
  }

  lemma {:induction false} PowerAdd(x: Row, i: nat, j: nat)
    requires Valid(x) && i >= 1 && j >= 1
    ensures Power(x, i + j) == MulUnchecked(Power(x, i), Power(x, j))
    decreases j
  {
    if j > 1 {
      var a, b := Power(x, i), Power(x, j - 1);
      PowerAdd(x, i, j - 1);
      assert Power(x, i + j) == MulUnchecked(MulUnchecked(a, b), x);
      MulAssoc(a, b, x);
      assert Power(x, j) == MulUnchecked(b, x);
    }
  }

  /** Distinct positions of a row hold distinct bells. */
  lemma DistinctInjective(bells: seq<Bell>, i: nat, j: nat)
    requires Distinct(bells) && i < |bells| && j < |bells| && bells[i] == bells[j]
    ensures i == j
  {
    if i < j {
      assert false;
    } else if j < i {
      assert false;
    }
  }

  /** If `p * q == p` for a valid `p`, then `q` is rounds. */
  lemma LeftCancel(p: Row, q: Row)
    requires Valid(p) && Valid(q) && StageOf(p) == StageOf(q)
    requires MulUnchecked(p, q) == p
    ensures q == Rounds(StageOf(q))
  {
    forall t | 0 <= t < |q.bells| ensures q.bells[t] == t {
      assert MulUnchecked(p, q).bells[t] == p.bells[q.bells[t]];
      DistinctInjective(p.bells, q.bells[t], t);
    }
    assert q.bells == Rounds(StageOf(q)).bells;
  }

  /** A power that repeats an earlier one means rounds was reached in between. */
  lemma PowerRepeat(x: Row, i: nat, k: nat)
    requires Valid(x) && 1 <= i < k
    requires Power(x, i) == Power(x, k)
    ensures Power(x, k - i) == Rounds(StageOf(x))
  {
    var p, q := Power(x, i), Power(x, k - i);
    PowerAdd(x, i, k - i);
    assert MulUnchecked(p, q) == p;
    LeftCancel(p, q);
  }

  /** Until rounds is reached, each new power of a row differs from all earlier ones. */
  lemma PowersDistinct(x: Row, k: nat)
    requires Valid(x) && k >= 1
    requires forall m :: 1 <= m < k ==> Power(x, m) != Rounds(StageOf(x))
    ensures forall i :: 1 <= i < k ==> Power(x, i) != Power(x, k)
  {
    forall i | 1 <= i < k ensures Power(x, i) != Power(x, k) {
      if Power(x, i) == Power(x, k) {
        PowerRepeat(x, i, k);
        assert false;
      }
    }
  }

  /** Every sequence of `len` bells below `n`, a finite set that bounds the closure. */
  ghost function SeqsBelow(len: nat, n: nat): set<seq<Bell>>
  {
    if len == 0 then {[]}
    else set s, b | s in SeqsBelow(len - 1, n) && 0 <= b < n :: s + [b]
  }

  lemma {:induction false} SeqsBelowComplete(s: seq<Bell>, n: nat)
    requires AllBelow(s, n)
    ensures s in SeqsBelow(|s|, n)
  {
    if s != [] {
      var init := s[..|s| - 1];
      SeqsBelowComplete(init, n);
      assert s == init + [s[|s| - 1]];
    }
  }

  /** The rows of stage `n` whose bells are below `n`. */
  ghost function RowsOfStage(n: nat): set<Row>
  {
    set s | s in SeqsBelow(n, n) :: Row(s)
  }

  lemma RowOfStage(r: Row)
    requires Valid(r)
    ensures r in RowsOfStage(StageOf(r))
  {
    SeqsBelowComplete(r.bells, StageOf(r));
  }

  lemma {:induction false} RowSetCard(a: set<Row>, b: set<Row>)
    requires a <= b
    ensures |a| <= |b|
    decreases |b|
  {
    if a != {} {
      var x :| x in a;
      RowSetCard(a - {x}, b - {x});
    }
  }

  /**
   * `c` lists the successive powers of `x` from `x` itself: every entry is a
   * valid row of `x`'s stage and each is the previous one multiplied by `x`.
   */
  ghost predicate PowerChain(x: Row, c: seq<Row>)
    requires Valid(x)
  {
    (|c| >= 1 ==> c[0] == x)
    && (forall i :: 0 <= i < |c| ==> Valid(c[i]) && StageOf(c[i]) == StageOf(x))
    && (forall i :: 1 <= i < |c| ==> c[i] == MulUnchecked(c[i - 1], x))
  }

  /** The entries of a power chain are the powers of `x`. */
  lemma {:induction false} PowerChainPowers(x: Row, c: seq<Row>)
    requires Valid(x) && PowerChain(x, c)
    ensures forall i :: 0 <= i < |c| ==> c[i] == Power(x, i + 1)
  {
    if |c| > 1 {
      var init := c[..|c| - 1];
      assert PowerChain(x, init);
      PowerChainPowers(x, init);
      assert c[|c| - 2] == init[|c| - 2];
    }
  }

  /**
   * While no entry of a power chain is rounds, the next power is not yet in
   * the chain.
   */
  lemma PowerChainFresh(x: Row, c: seq<Row>)
    requires Valid(x) && PowerChain(x, c) && |c| >= 1
    requires forall i :: 0 <= i < |c| ==> c[i] != Rounds(StageOf(x))
    ensures MulUnchecked(c[|c| - 1], x) !in c
  {
    PowerChainPowers(x, c);
    var k := |c| + 1;
    assert Power(x, k) == MulUnchecked(c[|c| - 1], x);
    forall m | 1 <= m < k ensures Power(x, m) != Rounds(StageOf(x)) {
      assert c[m - 1] == Power(x, m);
    }
    PowersDistinct(x, k);
    forall i | 0 <= i < |c| ensures c[i] != Power(x, k) {
      assert c[i] == Power(x, i + 1);
    }
  }

  /** The row `closure` multiplies next: `x` itself, then the last row times `x`. */
  ghost function NextPower(x: Row, c: seq<Row>): Row
    requires Valid(x) && PowerChain(x, c)
  {
    if c == [] then x else MulUnchecked(c[|c| - 1], x)
  }

  /** What holds at the head of `closure`'s loop. */
  ghost predicate ClosureInv(x: Row, c: seq<Row>, row: Row)
    requires Valid(x)
  {
    PowerChain(x, c) && row == NextPower(x, c) && Valid(row) && StageOf(row) == StageOf(x)
    && Rounds(StageOf(x)) !in c
  }

  /** One turn of `closure`'s loop: the collected row is new and, unless it is rounds, the invariant carries over. */
  lemma ClosureStep(x: Row, c: seq<Row>, row: Row)
    requires Valid(x) && ClosureInv(x, c, row)
    ensures row !in c && row in RowsOfStage(StageOf(x))
    ensures PowerChain(x, c + [row])
    ensures row != Rounds(StageOf(x)) ==> ClosureInv(x, c + [row], MulUnchecked(row, x))
  {
    if c != [] {
      PowerChainFresh(x, c);
    }
    RowOfStage(row);
    var c' := c + [row];
    assert c'[..|c|] == c;
    assert PowerChain(x, c');
    if row != Rounds(StageOf(x)) {
      MulValid(row, x);
    }
  }

  /**
   * `closure`: multiplies the row by itself, collecting each product, until
   * it reaches rounds.  The loop terminates because the collected rows stay
   * pairwise distinct inside the finite set `RowsOfStage`.
   */
  method Closure(x: Row) returns (closure: seq<Row>)
    requires Valid(x)
    ensures |closure| >= 1 && PowerChain(x, closure)
    ensures closure[|closure| - 1] == Rounds(StageOf(x))
    ensures Rounds(StageOf(x)) !in closure[..|closure| - 1]
  {
    var n := StageOf(x);
    closure := [];
    var row := x;
    ghost var seen: set<Row> := {};
    while true
      invariant ClosureInv(x, closure, row)
      invariant forall r :: r in seen <==> r in closure
      invariant |seen| == |closure| && seen <= RowsOfStage(n)
      invariant |closure| <= |RowsOfStage(n)|
      decreases |RowsOfStage(n)| - |closure|
    {
      ClosureStep(x, closure, row);
      ghost var previous := closure;
      closure := closure + [row];
      assert closure[..|closure| - 1] == previous;
      seen := seen + {row};
      RowSetCard(seen, RowsOfStage(n));
      if IsRounds(row) {
        return;
      }
      row := MulUnchecked(row, x);
    }
  }

  // ---------------------------------------------------------------------------
  // fast_hash
  // ---------------------------------------------------------------------------

  /**
   * `fast_hash` as written: `accum` starts at 0 and is only ever multiplied,
   * so every row hashes to 0.
   */
  method FastHashAsWritten(r: Row) returns (h: nat)
    ensures h == 0
  {
    var accum := 0;
    var multiplier := 1;
    for i := 0 to |r.bells|
      invariant accum == 0
    {
      accum := accum * (r.bells[i] * multiplier);
      multiplier := multiplier * StageOf(r);
    }
    h := accum;
  }

  /**
   * Two distinct valid rows of one stage, with different base-stage readings,
   * on which the hash as written collides.
   */
  method FastHashAsWrittenCollides() returns (h1: nat, h2: nat)
    ensures Valid(Row([0, 1])) && Valid(Row([1, 0])) && Row([0, 1]) != Row([1, 0])
    ensures RadixValue([0, 1], 2) != RadixValue([1, 0], 2)
    ensures h1 == h2
  {
    h1 := FastHashAsWritten(Row([0, 1]));
    h2 := FastHashAsWritten(Row([1, 0]));
    assert [0, 1][..1] == [0];
    assert [1, 0][..1] == [1];
  }

  function Pow(n: nat, k: nat): nat { if k == 0 then 1 else n * Pow(n, k - 1) }

  /** The bells read as a number in base `n`, the first bell least significant. */
  function RadixValue(bells: seq<Bell>, n: nat): nat
  {
    if bells == [] then 0
    else RadixValue(bells[..|bells| - 1], n) + bells[|bells| - 1] * Pow(n, |bells| - 1)
  }

  lemma MulMonotone(a: nat, b: nat, m: nat)
    requires a <= b
    ensures a * m <= b * m
  {
    var c := b - a;
    assert b * m == a * m + c * m;
  }

  lemma DigitBound(low: nat, d: nat, m: nat, n: nat)
    requires low < m && d < n
    ensures low + d * m < n * m
  {
    MulMonotone(d + 1, n, m);
  }

  lemma {:induction false} RadixValueBound(bells: seq<Bell>, n: nat)
    requires AllBelow(bells, n)
    ensures RadixValue(bells, n) < Pow(n, |bells|)
  {
    if bells != [] {
      var k := |bells| - 1;
      var init := bells[..k];
      RadixValueBound(init, n);
      DigitBound(RadixValue(init, n), bells[k], Pow(n, k), n);
    }
  }

  /** Splitting a base-`m` digit from a lower part below `m` is unique. */
  lemma DigitSplit(low: nat, d: nat, low': nat, d': nat, m: nat)
    requires low < m && low' < m
    requires low + d * m == low' + d' * m
    ensures d == d' && low == low'
  {
    if d < d' {
      MulMonotone(d + 1, d', m);
      assert false;
    } else if d' < d {
      MulMonotone(d' + 1, d, m);
      assert false;
    }
  }

  /** The intended hash is collision-free on sequences of one length with bells below `n`. */
  lemma {:induction false} RadixValueInjective(a: seq<Bell>, b: seq<Bell>, n: nat)
    requires |a| == |b| && AllBelow(a, n) && AllBelow(b, n)
    requires RadixValue(a, n) == RadixValue(b, n)
    ensures a == b
  {
    if a != [] {
      var k := |a| - 1;
      RadixValueBound(a[..k], n);
      RadixValueBound(b[..k], n);
      DigitSplit(RadixValue(a[..k], n), a[k], RadixValue(b[..k], n), b[k], Pow(n, k));
      RadixValueInjective(a[..k], b[..k], n);
      assert a == a[..k] + [a[k]] && b == b[..k] + [b[k]];
    }
  }

  /** `fast_hash` corrected: `accum += b * multiplier`, reading the row in base `stage`. */
  method FastHash(r: Row) returns (h: nat)
    ensures h == RadixValue(r.bells, StageOf(r))
  {
    var n := StageOf(r);
    var accum := 0;
    var multiplier := 1;
    for i := 0 to n
      invariant accum == RadixValue(r.bells[..i], n) && multiplier == Pow(n, i)
    {
      assert r.bells[..i + 1][..i] == r.bells[..i];
      accum := accum + r.bells[i] * multiplier;
      multiplier := multiplier * n;
    }
    assert r.bells[..n] == r.bells;
    h := accum;
  }

  /** The corrected hash tells apart any two distinct rows of one stage. */
  lemma FastHashInjective(r: Row, r': Row)
    requires Valid(r) && Valid(r') && StageOf(r) == StageOf(r')
    requires RadixValue(r.bells, StageOf(r)) == RadixValue(r'.bells, StageOf(r'))
    ensures r == r'
  {
    RadixValueInjective(r.bells, r'.bells, StageOf(r));
  }
}
