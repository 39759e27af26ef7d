/** The JavaScript numbers the selection arithmetic can reach: a finite
    real, the two infinities, and NaN.  Finite values are exact reals, so
    rounding, overflow and the sign of zero are not part of this model. */
module Extended {
  datatype Ext = Fin(v: real) | PosInf | NegInf | NaN

  /** -1, 0 or 1 by the sign of `x`. */
  function Sign(x: real): (s: int)
    ensures s == -1 || s == 0 || s == 1
    ensures (s < 0 <==> x < 0.0) && (s > 0 <==> x > 0.0)
  {
    if x < 0.0 then -1 else if x > 0.0 then 1 else 0
  }

  /** The infinity with the given sign. */
  function Infinity(s: int): Ext
  {
    if s < 0 then NegInf else PosInf
  }

  /** IEEE addition: NaN absorbs, opposite infinities give NaN, an infinity
      absorbs a finite value. */
  function Add(a: Ext, b: Ext): (r: Ext)
    ensures a.Fin? && b.Fin? ==> r == Fin(a.v + b.v)
    ensures a.NaN? || b.NaN? ==> r.NaN?
  {
    if a.NaN? || b.NaN? then NaN
    else if a.Fin? && b.Fin? then Fin(a.v + b.v)
    else if (a.PosInf? && b.NegInf?) || (a.NegInf? && b.PosInf?) then NaN
    else if a.PosInf? || b.PosInf? then PosInf
    else NegInf
  }

  /** IEEE multiplication: zero times an infinity is NaN, otherwise an
      infinite factor gives the infinity of the product's sign. */
  function Mul(a: Ext, b: Ext): (r: Ext)
    ensures a.Fin? && b.Fin? ==> r == Fin(a.v * b.v)
    ensures a.NaN? || b.NaN? ==> r.NaN?
  {
    if a.NaN? || b.NaN? then NaN
    else if a.Fin? && b.Fin? then Fin(a.v * b.v)
    else if a == Fin(0.0) || b == Fin(0.0) then NaN
    else if (SignOf(a) < 0) == (SignOf(b) < 0) then PosInf else NegInf
  }

  /** IEEE division, with every zero divisor taken as +0: a non-zero finite
      value over zero is the infinity of its sign, 0/0 and an infinity over an
      infinity are NaN, and a finite value over an infinity is 0. */
  function Div(a: Ext, b: Ext): (r: Ext)
    ensures a.Fin? && b.Fin? && b.v != 0.0 ==> r == Fin(a.v / b.v)
    ensures a.NaN? || b.NaN? ==> r.NaN?
  {
    if a.NaN? || b.NaN? then NaN
    else if a.Fin? && b.Fin? then
      (if b.v != 0.0 then Fin(a.v / b.v) else if a.v == 0.0 then NaN else Infinity(Sign(a.v)))
    else if a.Fin? then Fin(0.0)
    else if b.Fin? then (if (SignOf(a) < 0) == (b.v < 0.0) then PosInf else NegInf)
    else NaN
  }

  /** The sign of a non-NaN value, 0 for NaN. */
  function SignOf(a: Ext): int
  {
    match a
    case Fin(x) => Sign(x)
    case PosInf => 1
    case NegInf => -1
    case NaN => 0
  }

  /** JavaScript's `a < b`: false whenever either side is NaN. */
  predicate Less(a: Ext, b: Ext)
  {
    if a.NaN? || b.NaN? then false
    else if a.Fin? && b.Fin? then a.v < b.v
    else if a.NegInf? then !b.NegInf?
    else b.PosInf? && !a.PosInf?
  }

  /** `(a < b ? -1 : (a > b ? 1 : 0))`, the comparator of the roulette's
      binary search. */
  function Compare(a: Ext, b: Ext): (c: int)
    ensures c == -1 || c == 0 || c == 1
    ensures a.Fin? && b.Fin? ==> (c < 0 <==> a.v < b.v) && (c > 0 <==> a.v > b.v)
    ensures a.NaN? || b.NaN? ==> c == 0
  {
    if Less(a, b) then -1 else if Less(b, a) then 1 else 0
  }

  /** +Infinity times a positive number, and a positive number over zero,
      are +Infinity. */
  lemma PositiveInfinities(x: real, y: real)
    requires 0.0 < x && 0.0 < y
    ensures Mul(PosInf, Fin(x)) == PosInf
    ensures Div(Fin(y), Fin(0.0)) == PosInf
  {
  }

  lemma AddCommutes(a: Ext, b: Ext)
    ensures Add(a, b) == Add(b, a)
  {
  }

  /** `<` on the extended values is irreflexive and transitive, and NaN is
      unordered with everything. */
  lemma LessIsStrictOrder(a: Ext, b: Ext, c: Ext)
    ensures !Less(a, a)
    ensures Less(a, b) && Less(b, c) ==> Less(a, c)
    ensures Less(a, b) ==> !Less(b, a)
    ensures a.NaN? ==> !Less(a, b) && !Less(b, a)
  {
  }
}
