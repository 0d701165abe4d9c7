/** Extended reals: a real number or +infinity.
    Both planners use +infinity (math.inf) as "not yet reached"; arithmetic
    and comparison follow IEEE infinity on these two cases:
    inf + x == inf, inf == inf, x < inf for every finite x. */
module ExtReal {

  datatype Ext = Fin(v: real) | Inf

  /** a + b, with infinity absorbing. */
  function Add(a: Ext, b: Ext): (r: Ext)
    ensures r.Inf? <==> a.Inf? || b.Inf?
    ensures r.Fin? ==> r.v == a.v + b.v
  {
    if a.Inf? || b.Inf? then Inf else Fin(a.v + b.v)
  }

  /** a < b */
  predicate Lt(a: Ext, b: Ext) {
    match (a, b)
    case (Fin(x), Fin(y)) => x < y
    case (Fin(_), Inf) => true
    case (Inf, _) => false
  }

  /** a <= b */
  predicate Le(a: Ext, b: Ext) {
    !Lt(b, a)
  }

  /** Python's min(a, b): b when b < a, otherwise a. */
  function Min(a: Ext, b: Ext): (r: Ext)
    ensures Le(r, a) && Le(r, b)
    ensures r == a || r == b
    ensures r.Inf? <==> a.Inf? && b.Inf?
  {
    if Lt(b, a) then b else a
  }

  lemma LtTransitive(a: Ext, b: Ext, c: Ext)
    requires Lt(a, b) && Lt(b, c)
    ensures Lt(a, c)
  {
  }

  lemma LtTrichotomy(a: Ext, b: Ext)
    ensures Lt(a, b) || a == b || Lt(b, a)
  {
  }

  lemma LeTransitive(a: Ext, b: Ext, c: Ext)
    requires Le(a, b) && Le(b, c)
    ensures Le(a, c)
  {
  }
}
