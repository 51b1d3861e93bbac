/** JavaScript's `Set`: values kept once each, in the order they were
    first added. */
module JsSet {

  predicate NoDuplicates<T(==,!new)>(xs: seq<T>) {
    forall i, j :: 0 <= i < j < |xs| ==> xs[i] != xs[j]
  }

  /** The position of the first occurrence of `x`. */
  function FirstIndex<T(==,!new)>(xs: seq<T>, x: T): (k: nat)
    requires x in xs
    ensures k < |xs| && xs[k] == x
    ensures forall j :: 0 <= j < k ==> xs[j] != x
  {
    if xs[0] == x then 0 else 1 + FirstIndex(xs[1..], x)
  }

  /** `Array.from` of a `Set` filled by `add` in scan order: every value
      once, in order of first occurrence. */
  function InsertionOrder<T(==,!new)>(xs: seq<T>): (r: seq<T>)
    ensures forall x :: x in r <==> x in xs
    ensures NoDuplicates(r)
  {
    if |xs| == 0 then []
    else
      var d := InsertionOrder(xs[..|xs| - 1]);
      var x := xs[|xs| - 1];
      assert forall y :: y in xs <==> y in xs[..|xs| - 1] || y == x by {
        assert xs == xs[..|xs| - 1] + [x];
      }
      if x in d then d else d + [x]
  }

  /** Positions of first occurrences only move forward when a value is
      appended. */
  lemma FirstIndexPrefix<T(!new)>(xs: seq<T>, x: T)
    requires |xs| > 0 && x in xs[..|xs| - 1]
    ensures FirstIndex(xs, x) == FirstIndex(xs[..|xs| - 1], x)
  {
    var init := xs[..|xs| - 1];
    var k := FirstIndex(init, x);
    assert xs[k] == x;
    var m := FirstIndex(xs, x);
    assert m <= k;
    assert init[m] == xs[m];
  }

  /** `InsertionOrder` lists values by the position of their first
      occurrence. */
  lemma {:induction false} InsertionOrderByFirstIndex<T(!new)>(xs: seq<T>)
    ensures forall i, j :: 0 <= i < j < |InsertionOrder(xs)| ==>
      FirstIndex(xs, InsertionOrder(xs)[i]) < FirstIndex(xs, InsertionOrder(xs)[j])
    decreases |xs|
  {
    if |xs| > 0 {
      var init := xs[..|xs| - 1];
      var x := xs[|xs| - 1];
      var d := InsertionOrder(init);
      InsertionOrderByFirstIndex(init);
      forall y | y in d ensures FirstIndex(xs, y) == FirstIndex(init, y) {
        FirstIndexPrefix(xs, y);
      }
      if x !in d {
        var r := d + [x];
        assert x !in init;
        assert FirstIndex(xs, x) == |xs| - 1 by {
          forall j | 0 <= j < |xs| - 1 ensures xs[j] != x {
            assert xs[j] == init[j];
          }
        }
        forall i, j | 0 <= i < j < |r|
          ensures r[i] in xs && r[j] in xs && FirstIndex(xs, r[i]) < FirstIndex(xs, r[j])
        {
          assert r[i] == d[i] && r[i] in d;
          if j < |d| {
            assert r[j] == d[j] && r[j] in d;
          }
        }
      }
    }
  }

  /** Adding a value twice keeps it once. */
  lemma InsertionOrderSame<T(!new)>(x: T)
    ensures InsertionOrder([x, x]) == [x]
  {
    var xs := [x, x];
    assert xs[..1] == [x] && [x][..0] == [];
    assert InsertionOrder([x]) == [x];
  }

  /** Two different values are kept in the order added. */
  lemma InsertionOrderDistinct<T(!new)>(x: T, y: T)
    requires x != y
    ensures InsertionOrder([x, y]) == [x, y]
  {
    var xs := [x, y];
    assert xs[..1] == [x] && [x][..0] == [];
    assert InsertionOrder([x]) == [x];
  }
}
