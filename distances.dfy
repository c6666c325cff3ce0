/** Tentative distances: non-negative integers extended with the INFINITY sentinel. */
module Distances {

  /** A finite distance, or INFINITY for "no route known". */
  datatype Dist = Fin(n: nat) | Inf

  /** The strict order of distances, with every finite distance below INFINITY
      and INFINITY below nothing (so INFINITY < INFINITY is false). */
  predicate Less(a: Dist, b: Dist)
  {
    a.Fin? && (b.Inf? || a.n < b.n)
  }

  predicate LessEq(a: Dist, b: Dist)
  {
    !Less(b, a)
  }

  /** Sum of distances; INFINITY absorbs. */
  function Add(a: Dist, b: Dist): (r: Dist)
    ensures r.Fin? <==> a.Fin? && b.Fin?
    ensures r.Fin? ==> r.n == a.n + b.n
  {
    if a.Fin? && b.Fin? then Fin(a.n + b.n) else Inf
  }

  lemma AddAssociative(a: Dist, b: Dist, c: Dist)
    ensures Add(Add(a, b), c) == Add(a, Add(b, c))
  {
  }

  /** Adding a non-negative amount never makes a distance smaller. */
  lemma AddGrows(a: Dist, b: Dist)
    ensures LessEq(a, Add(a, b))
  {
  }

  lemma AddMonotone(a: Dist, a': Dist, b: Dist)
    requires LessEq(a, a')
    ensures LessEq(Add(a, b), Add(a', b))
  {
  }

  lemma LessEqTransitive(a: Dist, b: Dist, c: Dist)
    requires LessEq(a, b) && LessEq(b, c)
    ensures LessEq(a, c)
  {
  }
}
