/**
 * Orders and sorting.  The pipeline sorts three kinds of things with Rust's
 * library sorts: entries by their row (`sort_by`), locations (`sort`) and
 * groups of locations (`sort`, which for a `Vec` is the lexicographic order).
 * Here a sort is any function that returns a sorted permutation; `SortBy` is
 * an insertion sort that does so.
 */
module Orders {

  /** Any two elements are comparable and `le` is transitive. */
  ghost predicate TotalPreorder<T(!new)>(le: (T, T) -> bool) {
    (forall a, b :: le(a, b) || le(b, a))
    && (forall a, b, c :: le(a, b) && le(b, c) ==> le(a, c))
  }

  /** A total preorder under which only equal elements are equivalent. */
  ghost predicate TotalOrder<T(!new)>(le: (T, T) -> bool) {
    TotalPreorder(le) && (forall a, b :: le(a, b) && le(b, a) ==> a == b)
  }

  /** Every element is `le` every later element. */
  ghost predicate SortedBy<T(!new)>(s: seq<T>, le: (T, T) -> bool) {
    forall i, j :: 0 <= i < j < |s| ==> le(s[i], s[j])
  }

  /** Where `Insert` puts `x`: before the first element `x` is `le`, or at the end. */
  function InsertPos<T(!new)>(x: T, s: seq<T>, le: (T, T) -> bool): (p: nat)
    ensures p <= |s|
    ensures forall k :: 0 <= k < p ==> !le(x, s[k])
    ensures p < |s| ==> le(x, s[p])
  {
    if s == [] || le(x, s[0]) then 0 else 1 + InsertPos(x, s[1..], le)
  }

  /** `s` with `x` inserted at `InsertPos`. */
  function Insert<T(!new)>(x: T, s: seq<T>, le: (T, T) -> bool): (r: seq<T>)
  {
    var p := InsertPos(x, s, le);
    s[..p] + [x] + s[p..]
  }

  lemma InsertMultiset<T(!new)>(x: T, s: seq<T>, le: (T, T) -> bool)
    ensures multiset(Insert(x, s, le)) == multiset(s) + multiset{x}
  {
    var p := InsertPos(x, s, le);
    assert s == s[..p] + s[p..];
  }

  lemma InsertSorted<T(!new)>(x: T, s: seq<T>, le: (T, T) -> bool)
    requires TotalPreorder(le) && SortedBy(s, le)
    ensures SortedBy(Insert(x, s, le), le)
  {
    var p := InsertPos(x, s, le);
    var r := Insert(x, s, le);
    assert forall k :: 0 <= k < p ==> r[k] == s[k];
    assert r[p] == x;
    assert forall k :: p < k <= |s| ==> r[k] == s[k - 1];
    forall i, j | 0 <= i < j < |r| ensures le(r[i], r[j]) {
      if j < p {
      } else if i < p && j == p {
        assert !le(x, s[i]);
      } else if i < p {
        assert le(s[i], s[j - 1]);
      } else if i == p {
        if p < j - 1 {
          assert le(x, s[p]) && le(s[p], s[j - 1]);
        }
      } else {
        assert le(s[i - 1], s[j - 1]);
      }
    }
  }

  /** Insertion sort: always a permutation of `s` (sorted by `le` when it is a total preorder, see `SortBySorted`). */
  function SortBy<T(!new)>(s: seq<T>, le: (T, T) -> bool): (r: seq<T>)
    ensures multiset(r) == multiset(s) && |r| == |s|
  {
    if s == [] then []
    else
      var init := SortBy(s[..|s| - 1], le);
      InsertMultiset(s[|s| - 1], init, le);
      assert s == s[..|s| - 1] + [s[|s| - 1]];
      Insert(s[|s| - 1], init, le)
  }

  /** Sorting by a total preorder leaves the sequence sorted. */
  lemma {:induction false} SortBySorted<T(!new)>(s: seq<T>, le: (T, T) -> bool)
    requires TotalPreorder(le)
    ensures SortedBy(SortBy(s, le), le)
  {
    if s != [] {
      SortBySorted(s[..|s| - 1], le);
      InsertSorted(s[|s| - 1], SortBy(s[..|s| - 1], le), le);
    }
  }

  /** The first element of a sorted sequence is `le` each of its elements. */
  lemma SortedFirstLeast<T(!new)>(s: seq<T>, y: T, le: (T, T) -> bool)
    requires TotalPreorder(le) && SortedBy(s, le) && y in multiset(s)
    ensures le(s[0], y)
  {
    var i :| 0 <= i < |s| && s[i] == y;
    if i == 0 {
      assert le(y, y) || le(y, y);
    }
  }

  lemma MultisetTail<T>(a: seq<T>, b: seq<T>)
    requires a != [] && b != [] && a[0] == b[0] && multiset(a) == multiset(b)
    ensures multiset(a[1..]) == multiset(b[1..])
  {
    assert a == [a[0]] + a[1..] && b == [b[0]] + b[1..];
    assert multiset(a[1..]) == multiset(a) - multiset{a[0]};
    assert multiset(b[1..]) == multiset(b) - multiset{b[0]};
  }

  /**
   * A sorted order under a total order is unique: two sorted sequences with
   * the same elements are equal.  So whichever sort the program uses, the
   * result is the same as `SortBy`'s.
   */
  lemma {:induction false} SortedUnique<T(!new)>(a: seq<T>, b: seq<T>, le: (T, T) -> bool)
    requires TotalOrder(le) && SortedBy(a, le) && SortedBy(b, le)
    requires multiset(a) == multiset(b)
    ensures a == b
  {
    assert |a| == |multiset(a)| == |multiset(b)| == |b|;
    if a != [] {
      SortedFirstLeast(a, b[0], le);
      SortedFirstLeast(b, a[0], le);
      MultisetTail(a, b);
      SortedUnique(a[1..], b[1..], le);
      assert a == [a[0]] + a[1..] && b == [b[0]] + b[1..];
    }
  }

  // ---------------------------------------------------------------------------
  // Lexicographic order
  // ---------------------------------------------------------------------------

  /**
   * The order Rust derives for slices and `Vec`s: the first position where the
   * two differ decides, and a proper prefix comes first.
   */
  function LexLe<T(==,!new)>(a: seq<T>, b: seq<T>, le: (T, T) -> bool): bool
  {
    if a == [] then true
    else if b == [] then false
    else if a[0] != b[0] then le(a[0], b[0])
    else LexLe(a[1..], b[1..], le)
  }

  /** `LexLe` as a first-class order on sequences. */
  function LexOrder<T(==,!new)>(le: (T, T) -> bool): (seq<T>, seq<T>) -> bool
  {
    (a, b) => LexLe(a, b, le)
  }

  lemma {:induction false} LexTotal<T(!new)>(a: seq<T>, b: seq<T>, le: (T, T) -> bool)
    requires TotalOrder(le)
    ensures LexLe(a, b, le) || LexLe(b, a, le)
  {
    if a != [] && b != [] && a[0] == b[0] {
      LexTotal(a[1..], b[1..], le);
    }
  }

  lemma {:induction false} LexAntisymmetric<T(!new)>(a: seq<T>, b: seq<T>, le: (T, T) -> bool)
    requires TotalOrder(le) && LexLe(a, b, le) && LexLe(b, a, le)
    ensures a == b
  {
    if a != [] && b != [] {
      if a[0] == b[0] {
        LexAntisymmetric(a[1..], b[1..], le);
        assert a == [a[0]] + a[1..] && b == [b[0]] + b[1..];
      }
    }
  }

  lemma {:induction false} LexTransitive<T(!new)>(a: seq<T>, b: seq<T>, c: seq<T>, le: (T, T) -> bool)
    requires TotalOrder(le) && LexLe(a, b, le) && LexLe(b, c, le)
    ensures LexLe(a, c, le)
  {
    if a != [] && b != [] && c != [] {
      if a[0] == b[0] && b[0] == c[0] {
        LexTransitive(a[1..], b[1..], c[1..], le);
      } else if a[0] != c[0] {
        assert le(a[0], b[0]) && le(b[0], c[0]);
      } else {
        assert false;
      }
    }
  }

  /** The lexicographic extension of a total order is a total order. */
  lemma LexTotalOrder<T(!new)>(le: (T, T) -> bool)
    requires TotalOrder(le)
    ensures TotalOrder(LexOrder(le))
  {
    var lex := LexOrder(le);
    forall a, b ensures lex(a, b) || lex(b, a) {
      LexTotal(a, b, le);
    }
    forall a, b, c | lex(a, b) && lex(b, c) ensures lex(a, c) {
      LexTransitive(a, b, c, le);
    }
    forall a, b | lex(a, b) && lex(b, a) ensures a == b {
      LexAntisymmetric(a, b, le);
    }
  }

  /** The usual order on natural numbers. */
  predicate NatLe(a: nat, b: nat) { a <= b }

  lemma NatLeTotalOrder()
    ensures TotalOrder(NatLe)
  {
  }
}
