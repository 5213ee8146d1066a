/**
 * Where a row comes from in the composition (proj/src/derived_state.rs), and
 * the orders the truth-proving pipeline sorts by.
 */
module Locations {
  import opened Rows
  import opened Orders

  /** A row's part, fragment and index within the fragment. */
  datatype RowOrigin = RowOrigin(part: nat, frag: nat, row: nat)

  /** A row's position on screen: its fragment and index, without the part. */
  datatype RowLocation = RowLocation(frag: nat, row: nat)

  /** `From<RowOrigin> for RowLocation`: drops the part index. */
  function FromOrigin(o: RowOrigin): RowLocation
  {
    RowLocation(o.frag, o.row)
  }

  /** Two origins give the same location exactly when only their parts differ. */
  lemma FromOriginForgetsPart(a: RowOrigin, b: RowOrigin)
    ensures FromOrigin(a) == FromOrigin(b) <==> a.frag == b.frag && a.row == b.row
    ensures FromOrigin(a) == FromOrigin(RowOrigin(b.part, a.frag, a.row))
  {
  }

  /** The derived `Ord` of `RowLocation`: by fragment, then by row. */
  predicate LocLe(a: RowLocation, b: RowLocation)
  {
    a.frag < b.frag || (a.frag == b.frag && a.row <= b.row)
  }

  /** Strictly before in `LocLe`'s order. */
  predicate LocLt(a: RowLocation, b: RowLocation)
  {
    LocLe(a, b) && a != b
  }

  lemma LocLeTotalOrder()
    ensures TotalOrder(LocLe)
  {
  }

  /** The ordering examples the program's unit test checks. */
  lemma LocOrderExamples()
    ensures LocLt(RowLocation(0, 0), RowLocation(1, 0))
    ensures LocLt(RowLocation(0, 1), RowLocation(1, 0))
    ensures LocLt(RowLocation(1, 3), RowLocation(2, 1))
    ensures LocLt(RowLocation(0, 1), RowLocation(0, 3))
    ensures LocLt(RowLocation(0, 100), RowLocation(1, 0))
  {
  }

  /** The order on groups of locations: `Vec<RowLocation>`'s lexicographic order. */
  function GroupLe(): (seq<RowLocation>, seq<RowLocation>) -> bool
  {
    LexOrder(LocLe)
  }

  lemma GroupLeTotalOrder()
    ensures TotalOrder(GroupLe())
  {
    LocLeTotalOrder();
    LexTotalOrder(LocLe);
  }

  /** The order on rows: lexicographic on the bells. */
  predicate RowLe(a: Row, b: Row)
  {
    LexLe(a.bells, b.bells, NatLe)
  }

  lemma RowLeTotalOrder()
    ensures TotalOrder(RowLe)
  {
    NatLeTotalOrder();
    forall a: Row, b: Row ensures RowLe(a, b) || RowLe(b, a) {
      LexTotal(a.bells, b.bells, NatLe);
    }
    forall a: Row, b: Row, c: Row | RowLe(a, b) && RowLe(b, c) ensures RowLe(a, c) {
      LexTransitive(a.bells, b.bells, c.bells, NatLe);
    }
    forall a: Row, b: Row | RowLe(a, b) && RowLe(b, a) ensures a == b {
      LexAntisymmetric(a.bells, b.bells, NatLe);
    }
  }
}
