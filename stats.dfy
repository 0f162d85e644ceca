/** Missing values and the NaN-skipping means that every table operation uses. */
module Stats {

  /** A cell of a table: a value, or the missing-value marker (NaN in the source). */
  datatype Option<+T> = None | Some(value: T)

  /** The sum of a sequence, added up from the front to the back. */
  function Sum(xs: seq<real>): real
  {
    if xs == [] then 0.0 else Sum(xs[..|xs| - 1]) + xs[|xs| - 1]
  }

  /** The mean of the values present; missing when there are none (never zero). */
  function Mean(xs: seq<real>): (m: Option<real>)
    ensures m.None? <==> xs == []
    ensures m.Some? ==> m.value * |xs| as real == Sum(xs)
  {
    if xs == [] then None else Some(Sum(xs) / |xs| as real)
  }

  /** A column multiplied by a constant; a missing cell stays missing. */
  function Scale(k: real, m: Option<real>): (r: Option<real>)
    ensures r.Some? <==> m.Some?
    ensures r.Some? ==> r.value == k * m.value
  {
    match m
    case None => None
    case Some(v) => Some(k * v)
  }

  /** Row-wise sum of two cells that skips a missing one; two missing cells give missing. */
  function SkipSum(a: Option<real>, b: Option<real>): (r: Option<real>)
    ensures r.None? <==> a.None? && b.None?
    ensures a.Some? && b.Some? ==> r == Some(a.value + b.value)
  {
    match (a, b)
    case (Some(u), Some(v)) => Some(u + v)
    case (Some(u), None) => Some(u)
    case (None, Some(v)) => Some(v)
    case (None, None) => None
  }

  lemma ScaleTwice(a: real, b: real, m: Option<real>)
    ensures Scale(a * b, m) == Scale(a, Scale(b, m))
  {
    match m
    case None =>
    case Some(v) =>
      var inner, outer := Scale(b, m), Scale(a * b, m);
      assert inner.Some? && inner.value == b * v;
      assert outer.Some? && outer.value == a * (b * v);
      assert Scale(a, inner).value == outer.value;

  }

  lemma SquareOfProduct(a: real, b: real)
    ensures (a * a) * (b * b) == (a * b) * (a * b)
  {
  }

  /** Scaling by (a b)^2 is scaling by b^2, then by a^2. */
  lemma ScaleBySquare(a: real, b: real, m: Option<real>)
    ensures Scale((a * b) * (a * b), m) == Scale(a * a, Scale(b * b, m))
  {
    match m
    case None =>
    case Some(v) =>
      var inner, outer := Scale(b * b, m), Scale((a * b) * (a * b), m);
      assert inner.Some? && inner.value == (b * b) * v;
      assert outer.Some? && outer.value == ((a * b) * (a * b)) * v;
      assert ((a * b) * (a * b)) * v == (a * a) * ((b * b) * v);
      assert Scale(a * a, inner).value == outer.value;
  }

  lemma {:induction false} SumOfConstant(xs: seq<real>, c: real)
    requires forall i :: 0 <= i < |xs| ==> xs[i] == c
    ensures Sum(xs) == |xs| as real * c
  {
    if xs != [] {
      SumOfConstant(xs[..|xs| - 1], c);
    }
  }

  /** Every value equal to c: the mean is c. */
  lemma MeanOfConstant(xs: seq<real>, c: real)
    requires xs != []
    requires forall i :: 0 <= i < |xs| ==> xs[i] == c
    ensures Mean(xs) == Some(c)
  {
    SumOfConstant(xs, c);
    var n := |xs| as real;
    assert Sum(xs) / n == (n * c) / n == c;
  }
}
