/** `Vec::remove` and `Vec::swap` as operations on sequence values. */
module SeqUtil {

  /** `Vec::remove(i)` on a value. */
  function RemoveAt<T>(xs: seq<T>, i: nat): (r: seq<T>)
    requires i < |xs|
    ensures |r| == |xs| - 1
    ensures forall j :: 0 <= j < i ==> r[j] == xs[j]
    ensures forall j :: i <= j < |r| ==> r[j] == xs[j + 1]
  {
    xs[..i] + xs[i + 1..]
  }

  /** `Vec::swap(i, j)` on a value. */
  function Swap<T>(xs: seq<T>, i: nat, j: nat): (r: seq<T>)
    requires i < |xs| && j < |xs|
    ensures |r| == |xs|
  {
    xs[i := xs[j]][j := xs[i]]
  }

  /** A swap exchanges the two items, leaves every other in place, keeps the
      same items and is undone by the same swap. */
  lemma SwapSpec<T>(xs: seq<T>, i: nat, j: nat)
    requires i < |xs| && j < |xs|
    ensures var r := Swap(xs, i, j);
      && r[i] == xs[j] && r[j] == xs[i]
      && (forall k :: 0 <= k < |xs| && k != i && k != j ==> r[k] == xs[k])
      && multiset(r) == multiset(xs)
      && Swap(r, i, j) == xs
  {
    var r := Swap(xs, i, j);
    if i != j {
      assert multiset(xs[i := xs[j]]) == multiset(xs) - multiset{xs[i]} + multiset{xs[j]};
    }
  }
}
