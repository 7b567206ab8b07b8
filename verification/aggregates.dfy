/**
 * Order-free folds over multisets.
 *
 * Every visitor of the tree keeps a running aggregate whose final value must
 * not depend on the order in which the nodes reach it (the children of a node
 * sit in a hash set, so that order is unspecified). The folds below pick an
 * arbitrary element at each step; the `Pick` lemmas show that any element may
 * be taken first, which is exactly the statement that the order of visits
 * does not matter.
 */
module Aggregates {

  /** The sum of `f` over the elements of `m`, counted with multiplicity. */
  ghost function Sum<T>(m: multiset<T>, f: T -> int): int
    decreases |m|
  {
    if m == multiset{} then 0 else var x :| x in m; f(x) + Sum(m - multiset{x}, f)
  }

  /** The product of `f` over the elements of `m`, counted with multiplicity. */
  ghost function Product<T>(m: multiset<T>, f: T -> int): int
    decreases |m|
  {
    if m == multiset{} then 1 else var x :| x in m; f(x) * Product(m - multiset{x}, f)
  }

  /** Any element may be summed first. */
  lemma {:induction false} SumPick<T>(m: multiset<T>, f: T -> int, x: T)
    requires x in m
    ensures Sum(m, f) == f(x) + Sum(m - multiset{x}, f)
    decreases |m|
  {
    var y :| y in m && Sum(m, f) == f(y) + Sum(m - multiset{y}, f);
    if y != x {
      var rest := m - multiset{x} - multiset{y};
      assert x in m - multiset{y} && y in m - multiset{x};
      assert m - multiset{y} - multiset{x} == rest;
      SumPick(m - multiset{y}, f, x);
      SumPick(m - multiset{x}, f, y);
    }
  }

  /** Any element may be multiplied in first. */
  lemma {:induction false} ProductPick<T>(m: multiset<T>, f: T -> int, x: T)
    requires x in m
    ensures Product(m, f) == f(x) * Product(m - multiset{x}, f)
    decreases |m|
  {
    var y :| y in m && Product(m, f) == f(y) * Product(m - multiset{y}, f);
    if y != x {
      var rest := m - multiset{x} - multiset{y};
      assert x in m - multiset{y} && y in m - multiset{x};
      assert m - multiset{y} - multiset{x} == rest;
      ProductPick(m - multiset{y}, f, x);
      ProductPick(m - multiset{x}, f, y);
      MulSwap(f(y), f(x), Product(rest, f));
    }
  }

  lemma MulSwap(a: int, b: int, c: int)
    ensures a * (b * c) == b * (a * c)
  {
  }

  /** Adding one element adds its value to the sum. */
  lemma SumAdd<T>(m: multiset<T>, f: T -> int, x: T)
    ensures Sum(m + multiset{x}, f) == Sum(m, f) + f(x)
  {
    SumPick(m + multiset{x}, f, x);
    assert m + multiset{x} - multiset{x} == m;
  }

  /** Adding one element multiplies the product by its value. */
  lemma ProductAdd<T>(m: multiset<T>, f: T -> int, x: T)
    ensures Product(m + multiset{x}, f) == f(x) * Product(m, f)
  {
    ProductPick(m + multiset{x}, f, x);
    assert m + multiset{x} - multiset{x} == m;
  }

  /** The sum over a union is the sum of the sums. */
  lemma {:induction false} SumUnion<T>(a: multiset<T>, b: multiset<T>, f: T -> int)
    ensures Sum(a + b, f) == Sum(a, f) + Sum(b, f)
    decreases |b|
  {
    if b != multiset{} {
      var x :| x in b;
      var b' := b - multiset{x};
      assert a + b == (a + b') + multiset{x};
      assert b == b' + multiset{x};
      SumUnion(a, b', f);
      SumAdd(a + b', f, x);
      SumAdd(b', f, x);
    } else {
      assert a + b == a;
    }
  }

  /** A product of non-negative factors is non-negative. */
  lemma {:induction false} ProductNonNegative<T>(m: multiset<T>, f: T -> int)
    requires forall x | x in m :: f(x) >= 0
    ensures Product(m, f) >= 0
    decreases |m|
  {
    if m != multiset{} {
      var x :| x in m;
      ProductPick(m, f, x);
      ProductNonNegative(m - multiset{x}, f);
      MulNonNegative(f(x), Product(m - multiset{x}, f));
    }
  }

  /** A sum of non-negative terms is non-negative. */
  lemma {:induction false} SumNonNegative<T>(m: multiset<T>, f: T -> int)
    requires forall x | x in m :: f(x) >= 0
    ensures Sum(m, f) >= 0
    decreases |m|
  {
    if m != multiset{} {
      var x :| x in m;
      SumPick(m, f, x);
      SumNonNegative(m - multiset{x}, f);
    }
  }

  /** A sum that is not zero has a term that is not zero. */
  lemma {:induction false} SumNonZero<T>(m: multiset<T>, f: T -> int)
    requires Sum(m, f) != 0
    ensures exists x :: x in m && f(x) != 0
    decreases |m|
  {
    var x :| x in m;
    SumPick(m, f, x);
    if f(x) == 0 {
      SumNonZero(m - multiset{x}, f);
      var y :| y in m - multiset{x} && f(y) != 0;
      assert y in m;
    }
  }

  lemma MulNonNegative(a: int, b: int)
    requires a >= 0 && b >= 0
    ensures a * b >= 0
  {
  }
}
