/** Values that stand in for JavaScript's `undefined` and thrown errors, and the
    few sequence operations (`filter`, `Set.add`, `includes`) the source uses on
    plain arrays. */
module Common {

  datatype Option<+T> = None | Some(value: T)

  datatype Result<+T, +E> = Ok(value: T) | Err(error: E)

  /** No element occurs twice. */
  ghost predicate NoDuplicates<T>(xs: seq<T>) {
    forall i, j :: 0 <= i < j < |xs| ==> xs[i] != xs[j]
  }

  /** `xs.filter(y => y !== x)`: every occurrence of `x` removed, the other
      elements kept in their order. */
  function Without<T(==)>(xs: seq<T>, x: T): (r: seq<T>)
    ensures x !in r
    ensures forall i :: 0 <= i < |r| ==> r[i] in xs && r[i] != x
    ensures forall i :: 0 <= i < |xs| && xs[i] != x ==> xs[i] in r
    ensures |r| <= |xs|
    ensures x !in xs ==> r == xs
  {
    if xs == [] then []
    else (if xs[0] == x then [] else [xs[0]]) + Without(xs[1..], x)
  }

  /** Removing an element keeps the remaining elements distinct. */
  lemma {:induction false} WithoutNoDuplicates<T>(xs: seq<T>, x: T)
    requires NoDuplicates(xs)
    ensures NoDuplicates(Without(xs, x))
  {
    if xs != [] {
      WithoutNoDuplicates(xs[1..], x);
      var rest := Without(xs[1..], x);
      assert xs[0] !in xs[1..];
      assert xs[0] !in rest;
      var head: seq<T> := if xs[0] == x then [] else [xs[0]];
      assert Without(xs, x) == head + rest;
    }
  }

  /** Removing an element just appended, that was not there before, undoes the append. */
  lemma {:induction false} WithoutAppend<T>(xs: seq<T>, x: T)
    requires x !in xs
    ensures Without(xs + [x], x) == xs
  {
    if xs != [] {
      assert (xs + [x])[1..] == xs[1..] + [x];
      WithoutAppend(xs[1..], x);
    }
  }

  /** `Set.prototype.add` on an insertion-ordered set held as a sequence. */
  function AddOnce<T(==)>(xs: seq<T>, x: T): (r: seq<T>)
    ensures NoDuplicates(xs) ==> NoDuplicates(r)
    ensures x in r && forall i :: 0 <= i < |r| ==> r[i] in xs || r[i] == x
    ensures xs <= r
  {
    if x in xs then xs else xs + [x]
  }
}
