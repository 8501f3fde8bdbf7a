/**
 * The counting fold both scores are written as:
 * `items.reduce((acc, x) => acc + (test(x) ? 1 : 0), 0)`.
 */
module Folds {

  /** The left fold adding one for each item that passes `test`. */
  function CountIf<T>(items: seq<T>, test: T -> bool): (r: nat)
    ensures r <= |items|
  {
    if items == [] then 0
    else CountIf(items[..|items| - 1], test) + (if test(items[|items| - 1]) then 1 else 0)
  }

  /** The positions of the items that pass `test`. */
  function Passing<T>(items: seq<T>, test: T -> bool): set<nat> {
    set i: nat | i < |items| && test(items[i])
  }

  /** The fold counts exactly the items that pass. */
  lemma {:induction false} CountIfIsPassing<T>(items: seq<T>, test: T -> bool)
    ensures CountIf(items, test) == |Passing(items, test)|
  {
    if items != [] {
      var n := |items| - 1;
      var prefix := items[..n];
      CountIfIsPassing(prefix, test);
      var before, now := Passing(prefix, test), Passing(items, test);
      if test(items[n]) {
        assert now == before + {n};
      } else {
        assert now == before;
      }
    }
  }

  /** The count is `|items|` exactly when every item passes. */
  lemma {:induction false} CountIfAll<T>(items: seq<T>, test: T -> bool)
    ensures CountIf(items, test) == |items| <==> forall i :: 0 <= i < |items| ==> test(items[i])
  {
    if items != [] {
      var n := |items| - 1;
      CountIfAll(items[..n], test);
      assert forall i :: 0 <= i < n ==> items[..n][i] == items[i];
    }
  }

  /** The count is 0 exactly when no item passes. */
  lemma {:induction false} CountIfNone<T>(items: seq<T>, test: T -> bool)
    ensures CountIf(items, test) == 0 <==> forall i :: 0 <= i < |items| ==> !test(items[i])
  {
    if items != [] {
      var n := |items| - 1;
      CountIfNone(items[..n], test);
      assert forall i :: 0 <= i < n ==> items[..n][i] == items[i];
    }
  }
}
