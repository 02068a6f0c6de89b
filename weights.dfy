/**
 * Edge weights and distances as the solver scripts handle them: an adjacency
 * matrix entry is either the marker 'x' or a weight, and a distance is a
 * Python float that may be float('inf').  Weights are modelled as exact reals.
 */
module Weights {

  /** One adjacency-matrix entry: 'x' (no edge) or an edge weight. */
  datatype Entry = NoEdge | Edge(w: real)

  /** A distance: a finite value, or float('inf'). */
  datatype Ext = Fin(v: real) | Inf

  /** Python `a + b`; anything plus infinity is infinity. */
  function Add(a: Ext, b: Ext): Ext
  {
    if a.Inf? || b.Inf? then Inf else Fin(a.v + b.v)
  }

  /** Python `a < b`; infinity is smaller than nothing. */
  predicate Lt(a: Ext, b: Ext)
  {
    match a
    case Inf => false
    case Fin(x) => b.Inf? || x < b.v
  }

  /** Python `a <= b`. */
  predicate Le(a: Ext, b: Ext)
  {
    !Lt(b, a)
  }

  /** Python `min(a, b)`: the first argument unless the second is strictly smaller. */
  function Min(a: Ext, b: Ext): Ext
  {
    if Lt(b, a) then b else a
  }

  /** No negative distance. */
  predicate NonNeg(a: Ext)
  {
    a.Fin? ==> a.v >= 0.0
  }

  lemma LeTransitive(a: Ext, b: Ext, c: Ext)
    requires Le(a, b) && Le(b, c)
    ensures Le(a, c)
  {
  }

  /** The smaller of a and the route b + c is at most any route bounding b and c. */
  lemma MinBelowRoute(a: Ext, b: Ext, c: Ext, x: Ext, y: Ext)
    requires Le(b, x) && Le(c, y)
    ensures Le(Min(a, Add(b, c)), Add(x, y))
  {
    AddMonotonic(b, c, x, y);
  }

  lemma AddMonotonic(a: Ext, b: Ext, c: Ext, d: Ext)
    requires Le(a, c) && Le(b, d)
    ensures Le(Add(a, b), Add(c, d))
  {
  }
}
