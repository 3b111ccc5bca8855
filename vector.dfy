/** `V2d<i32>`: the integer 2D vector with componentwise arithmetic. Each
    operator and its `*Assign` form are written separately in `vector.rs`, so
    both are kept here and shown to agree. Rust's `/` on `i32` truncates toward
    zero. */
module Vectors {
  import opened IntOps

  datatype Vi2d = Vi2d(x: int, y: int)
  {
    function Add(o: Vi2d): Vi2d
    {
      Vi2d(x + o.x, y + o.y)
    }

    function Sub(o: Vi2d): Vi2d
    {
      Vi2d(x - o.x, y - o.y)
    }

    function Neg(): Vi2d
    {
      Vi2d(-x, -y)
    }

    /** `v * k`: scale both components. */
    function Mul(k: int): Vi2d
    {
      Vi2d(x * k, y * k)
    }

    /** `v / k`: divide both components, rounding toward zero; division by
        zero panics in Rust. */
    function Div(k: int): Vi2d
      requires k != 0
    {
      Vi2d(TruncDiv(x, k), TruncDiv(y, k))
    }

    function Dot(o: Vi2d): int
    {
      x * o.x + y * o.y
    }

    function Mag2(): int
    {
      x * x + y * y
    }

    /** `cross` as `vector.rs` defines it: `x*rhs.x - y*rhs.y`. */
    function Cross(o: Vi2d): int
    {
      x * o.x - y * o.y
    }

    /** The vector turned a quarter turn: (-y, x). */
    function Perp(): Vi2d
    {
      Vi2d(-y, x)
    }

    /** The `*Assign` forms, each rebinding the receiver to a freshly built
        vector. */
    function AddAssign(o: Vi2d): (r: Vi2d)
      ensures r == Add(o)
    {
      this.(x := x + o.x, y := y + o.y)
    }

    function SubAssign(o: Vi2d): (r: Vi2d)
      ensures r == Sub(o)
    {
      this.(x := x - o.x, y := y - o.y)
    }

    function MulAssign(k: int): (r: Vi2d)
      ensures r == Mul(k)
    {
      this.(x := x * k, y := y * k)
    }

    function DivAssign(k: int): (r: Vi2d)
      requires k != 0
      ensures r == Div(k)
    {
      this.(x := TruncDiv(x, k), y := TruncDiv(y, k))
    }
  }

  /** `V2d::default()`: both components are `i32::default()`. */
  function Zero(): Vi2d
  {
    Vi2d(0, 0)
  }

  /** Addition has the zero vector as identity and the negation as inverse. */
  lemma AddGroup(a: Vi2d, b: Vi2d, c: Vi2d)
    ensures a.Add(Zero()) == a
    ensures a.Add(a.Neg()) == Zero()
    ensures a.Add(b) == b.Add(a)
    ensures a.Add(b).Add(c) == a.Add(b.Add(c))
    ensures a.Sub(b) == a.Add(b.Neg())
  {
  }

  /** Subtracting what was added gives back the original. */
  lemma AddThenSub(a: Vi2d, b: Vi2d)
    ensures a.Add(b).Sub(b) == a
  {
  }

  lemma NegInvolutive(v: Vi2d)
    ensures v.Neg().Neg() == v
  {
  }

  /** Two quarter turns are a half turn; four are the identity. */
  lemma PerpTwice(v: Vi2d)
    ensures v.Perp().Perp() == v.Neg()
    ensures v.Perp().Perp().Perp().Perp() == v
    ensures v.Perp().Dot(v) == 0
  {
  }

  /** `dot` is symmetric and `mag2` is the dot product of a vector with itself;
      both are unchanged by a quarter turn. */
  lemma DotFacts(a: Vi2d, b: Vi2d)
    ensures a.Dot(b) == b.Dot(a)
    ensures a.Mag2() == a.Dot(a) && a.Mag2() >= 0
    ensures a.Perp().Dot(b.Perp()) == a.Dot(b)
  {
    assert a.x * a.x >= 0 && a.y * a.y >= 0;
  }

  /** Scaling distributes over addition. */
  lemma MulDistributes(a: Vi2d, b: Vi2d, k: int)
    ensures a.Add(b).Mul(k) == a.Mul(k).Add(b.Mul(k))
  {
    assert (a.x + b.x) * k == a.x * k + b.x * k;
    assert (a.y + b.y) * k == a.y * k + b.y * k;
  }

  /** Dividing by the factor just multiplied by returns the vector exactly. */
  lemma MulThenDiv(v: Vi2d, k: int)
    requires k != 0
    ensures v.Mul(k).Div(k) == v
  {
    TruncDivExact(v.x, k);
    TruncDivExact(v.y, k);
  }

  /** Division rounds toward zero on both signs, unlike Euclidean division.
      An illustration on one vector; the general facts are the contract of
      `IntOps.TruncRem` and the lemmas `IntOps.TruncBounds` and
      `IntOps.TruncDivExact`. */
  lemma DivTruncates()
    ensures Vi2d(-7, 7).Div(2) == Vi2d(-3, 3)
    ensures Vi2d(-7, 7).Div(-2) == Vi2d(3, -3)
  {
  }

  /** `cross` is not the usual 2D cross product `x*rhs.y - y*rhs.x`: for
      (1, 0) and (0, 1) it gives 0 where the determinant is 1. */
  lemma CrossIsNotDeterminant()
    ensures Vi2d(1, 0).Cross(Vi2d(0, 1)) == 0
    ensures Determinant(Vi2d(1, 0), Vi2d(0, 1)) == 1
  {
  }

  /** Nor does it vanish on a vector crossed with itself, as a cross product
      does: it is the squared x minus the squared y. */
  lemma CrossWithSelf(v: Vi2d)
    ensures v.Cross(v) == v.x * v.x - v.y * v.y
    ensures Determinant(v, v) == 0
    ensures Vi2d(2, 1).Cross(Vi2d(2, 1)) == 3
  {
  }

  /** The usual 2D cross product, for comparison. */
  function Determinant(a: Vi2d, b: Vi2d): int
  {
    a.x * b.y - a.y * b.x
  }

  /** What `cross` does compute: the dot product with the second vector
      mirrored in the x axis. */
  lemma CrossIsMirroredDot(a: Vi2d, b: Vi2d)
    ensures a.Cross(b) == a.Dot(Vi2d(b.x, -b.y))
  {
  }
}
