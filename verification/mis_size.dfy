/** `MisSize`: the size of an independent set, or `Invalid` for a subset that
    is not independent. `Invalid` behaves like minus infinity. */
module MisSizes {
  import opened Strings

  datatype MisSize = Invalid | Valid(n: nat)

  datatype Ordering = Less | Equal | Greater

  /** Sum; `Invalid` on either side absorbs. */
  function Add(a: MisSize, b: MisSize): (r: MisSize)
    ensures r.Invalid? <==> a.Invalid? || b.Invalid?
    ensures r.Valid? ==> r.n == a.n + b.n
  {
    match a
    case Invalid => Invalid
    case Valid(l) =>
      match b
      case Invalid => Invalid
      case Valid(r) => Valid(l + r)
  }

  /** Difference; `Invalid` absorbs. On two valid sizes the source subtracts
      machine words, which panics below zero, so it asks `l >= r`. */
  function Sub(a: MisSize, b: MisSize): (r: MisSize)
    requires a.Valid? && b.Valid? ==> a.n >= b.n
    ensures r.Invalid? <==> a.Invalid? || b.Invalid?
    ensures r.Valid? ==> r.n + b.n == a.n
  {
    match a
    case Invalid => Invalid
    case Valid(l) =>
      match b
      case Invalid => Invalid
      case Valid(r) => Valid(l - r)
  }

  /** The derived order: the `Invalid` variant comes first, then valid sizes by value. */
  function Cmp(a: MisSize, b: MisSize): (r: Ordering)
    ensures r == Equal <==> a == b
    ensures r == Less <==> (a.Invalid? && b.Valid?) || (a.Valid? && b.Valid? && a.n < b.n)
    ensures r == Greater <==> (a.Valid? && b.Invalid?) || (a.Valid? && b.Valid? && a.n > b.n)
  {
    match (a, b)
    case (Invalid, Invalid) => Equal
    case (Invalid, Valid(_)) => Less
    case (Valid(_), Invalid) => Greater
    case (Valid(l), Valid(r)) => if l < r then Less else if l == r then Equal else Greater
  }

  predicate Lt(a: MisSize, b: MisSize) {
    Cmp(a, b) == Less
  }

  predicate Le(a: MisSize, b: MisSize) {
    Cmp(a, b) != Greater
  }

  /** `std::cmp::max_by(x, y, cmp)`: the second argument unless the first is greater. */
  function MaxBy(x: MisSize, y: MisSize): (r: MisSize)
    ensures r == x || r == y
    ensures Le(x, r) && Le(y, r)
    ensures Cmp(x, y) != Greater ==> r == y
  {
    if Cmp(x, y) == Greater then x else y
  }

  /** `Display`: `-infinity` for `Invalid`, the decimal value otherwise. */
  function Display(m: MisSize): (s: string)
    ensures m.Invalid? <==> |s| > 0 && s[0] == '-'
  {
    match m
    case Invalid => "-infinity"
    case Valid(n) => NatToString(n)
  }

  lemma InvalidAbsorbs(m: MisSize)
    ensures Add(Invalid, m) == Invalid && Add(m, Invalid) == Invalid
    ensures Sub(Invalid, m) == Invalid && Sub(m, Invalid) == Invalid
  {
  }

  lemma InvalidIsBottom(m: MisSize)
    ensures Le(Invalid, m)
    ensures m.Valid? ==> Lt(Invalid, m)
  {
  }

  /** The order is total and antisymmetric: it is a linear order. */
  lemma CmpFlip(a: MisSize, b: MisSize)
    ensures Cmp(a, b) == Less <==> Cmp(b, a) == Greater
    ensures Le(a, b) || Le(b, a)
    ensures Le(a, b) && Le(b, a) ==> a == b
  {
  }

  lemma LeTransitive(a: MisSize, b: MisSize, c: MisSize)
    requires Le(a, b) && Le(b, c)
    ensures Le(a, c)
  {
  }

  /** Subtracting what was added gives back the original size. */
  lemma AddSubCancel(a: MisSize, b: MisSize)
    requires b.Valid?
    ensures Sub(Add(a, b), b) == a
  {
  }

  lemma AddCommutes(a: MisSize, b: MisSize)
    ensures Add(a, b) == Add(b, a)
  {
  }

  /** Adding a valid size is monotone in the derived order. */
  lemma AddMonotone(a: MisSize, b: MisSize, c: MisSize)
    requires Le(a, b) && c.Valid?
    ensures Le(Add(a, c), Add(b, c))
  {
  }

  /** Two sizes render differently. */
  lemma DisplayInjective(a: MisSize, b: MisSize)
    requires Display(a) == Display(b)
    ensures a == b
  {
    if a.Valid? && b.Valid? {
      NatToStringInjective(a.n, b.n);
    }
  }
}
