/** Shared value types and the few arithmetic and sequence notions every other module uses. */
module Prelude {

  datatype Option<+T> = None | Some(value: T)

  datatype Result<+T, +E> = Ok(value: T) | Err(error: E)

  type byte = x: int | 0 <= x < 256

  /** Rust's `u64::saturating_sub`. */
  function SaturatingSub(a: nat, b: nat): nat {
    if a < b then 0 else a - b
  }

  function RemoveAt<T>(xs: seq<T>, k: nat): (r: seq<T>)
    requires k < |xs|
    ensures |r| == |xs| - 1
  {
    xs[..k] + xs[k + 1..]
  }

  ghost predicate StrictlyIncreasing(xs: seq<nat>) {
    forall i, j | 0 <= i < j < |xs| :: xs[i] < xs[j]
  }

  lemma AppendIncreasing(xs: seq<nat>, x: nat)
    requires StrictlyIncreasing(xs)
    requires forall y | y in xs :: y < x
    ensures StrictlyIncreasing(xs + [x])
  {
    forall i, j | 0 <= i < j < |xs + [x]|
      ensures (xs + [x])[i] < (xs + [x])[j]
    {
      assert xs[i] in xs;
    }
  }

  /** A strictly increasing sequence holds as many elements as the set it enumerates. */
  lemma {:induction false} EnumerationSize(xs: seq<nat>, s: set<nat>)
    requires StrictlyIncreasing(xs)
    requires forall x :: x in s <==> x in xs
    ensures |xs| == |s|
  {
    if xs == [] {
      assert s == {};
    } else {
      var last := xs[|xs| - 1];
      var front := xs[..|xs| - 1];
      assert xs == front + [last];
      EnumerationSize(front, s - {last});
    }
  }

  lemma {:induction false} SubsetSize<T>(a: set<T>, b: set<T>)
    requires a <= b
    ensures |a| <= |b|
  {
    if a != {} {
      var x :| x in a;
      SubsetSize(a - {x}, b - {x});
    }
  }
}
