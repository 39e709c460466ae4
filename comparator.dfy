/**
 The comparator that the sorted view hands to `Array.prototype.sort`
 (src/components/DataTable/DataTable.tsx:76-99), and the order-theoretic facts
 about it that the stable sort needs.
 */
module Comparator {
  import opened Cells
  import opened SortControl

  /** `(a, b) => ...` for the cell values `a` and `b` of two rows, in direction `order`.
      A negative result puts the row of `a` first, a positive one the row of `b`. */
  function Compare(a: Value, b: Value, order: Direction): (r: int)
    ensures a.Null? && b.Null? ==> r == 0
    ensures a.Null? && !b.Null? ==> r > 0
    ensures !a.Null? && b.Null? ==> r < 0
  {
    if a.Null? && b.Null? then 0
    else if a.Null? then 1
    else if b.Null? then -1
    else if a.Str? && b.Str? then
      (if order == Asc then LexCompare(a.s, b.s) else LexCompare(b.s, a.s))
    else if a.Num? && b.Num? then
      (if order == Asc then a.n - b.n else b.n - a.n)
    else
      var aStr, bStr := Text(a), Text(b);
      if order == Asc then LexCompare(aStr, bStr) else LexCompare(bStr, aStr)
  }

  /** Two values the comparator orders consistently: a number is never compared
      with a string or other value, where `String()` would replace numeric order. */
  predicate Compatible(a: Value, b: Value)
  {
    !(a.Num? && IsTextual(b)) && !(IsTextual(a) && b.Num?)
  }

  /** Descending reverses the comparison of two present values, and leaves a
      comparison that involves null or undefined as it is. */
  lemma DirectionReversesPresentValues(a: Value, b: Value)
    ensures !a.Null? && !b.Null? ==> Compare(a, b, Desc) == Compare(b, a, Asc)
    ensures a.Null? || b.Null? ==> Compare(a, b, Desc) == Compare(a, b, Asc)
  {
  }

  /** Between compatible values, the comparator orders exactly as the numbers, or
      exactly as the texts, that it compares. */
  lemma CompareCompatible(a: Value, b: Value, order: Direction)
    requires !a.Null? && !b.Null? && Compatible(a, b)
    ensures a.Num? ==> b.Num? && Compare(a, b, order) == (if order == Asc then a.n - b.n else b.n - a.n)
    ensures !a.Num? ==> IsTextual(b)
    ensures !a.Num? ==> Compare(a, b, order) ==
                        (if order == Asc then LexCompare(Text(a), Text(b)) else LexCompare(Text(b), Text(a)))
  {
  }

  /** Swapping the arguments negates the sign of the comparison, for all values. */
  lemma CompareAntisymmetric(a: Value, b: Value, order: Direction)
    ensures Compare(a, b, order) > 0 <==> Compare(b, a, order) < 0
    ensures Compare(a, b, order) == 0 <==> Compare(b, a, order) == 0
  {
    if !a.Null? && !b.Null? {
      if a.Str? && b.Str? {
        LexAntisymmetric(a.s, b.s);
      } else if !(a.Num? && b.Num?) {
        LexAntisymmetric(Text(a), Text(b));
      }
    }
  }

  /** "Comes no later than" is transitive over pairwise compatible values. */
  lemma CompareTransitive(a: Value, b: Value, c: Value, order: Direction)
    requires Compatible(a, b) && Compatible(b, c) && Compatible(a, c)
    requires Compare(a, b, order) <= 0 && Compare(b, c, order) <= 0
    ensures Compare(a, c, order) <= 0
  {
    if !a.Null? && !b.Null? && !c.Null? {
      CompareCompatible(a, b, order);
      CompareCompatible(b, c, order);
      CompareCompatible(a, c, order);
      if !a.Num? {
        if order == Asc {
          LexTransitive(Text(a), Text(b), Text(c));
        } else {
          LexTransitive(Text(c), Text(b), Text(a));
        }
      }
    }
  }

  /** Ties are transitive over pairwise compatible values. */
  lemma TieTransitive(a: Value, b: Value, c: Value, order: Direction)
    requires Compatible(a, b) && Compatible(b, c) && Compatible(a, c)
    requires Compare(a, b, order) == 0 && Compare(b, c, order) == 0
    ensures Compare(a, c, order) == 0
  {
    CompareAntisymmetric(a, b, order);
    CompareAntisymmetric(b, c, order);
    CompareAntisymmetric(a, c, order);
    CompareTransitive(a, b, c, order);
    CompareTransitive(c, b, a, order);
  }

  /** Mixing numbers with strings breaks transitivity: 9 comes before 10 by
      difference, but 10 comes before "5" and "5" before 9 through `String()`,
      so these three values form a cycle and no order agrees with all three. */
  lemma {:induction false} MixedColumnHasCycle()
    ensures Compare(Num(9), Num(10), Asc) < 0
    ensures Compare(Num(10), Str("5"), Asc) < 0
    ensures Compare(Str("5"), Num(9), Asc) < 0
  {
    assert Digits(10) == "10" by {
      assert Digits(1) == "1";
    }
    assert Digits(9) == "9";
    assert Text(Num(10)) == "10";
    assert Text(Num(9)) == "9";
    assert LexCompare("10", "5") == -1;
    assert LexCompare("5", "9") == -1;
  }
}
