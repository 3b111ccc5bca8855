/** Integer helpers shared by the whole model: Rust's truncating division and
    remainder (Dafny's own `/` and `%` are Euclidean), absolute value, and the
    row-major grid index `y * w + x` with its range and injectivity facts. */
module IntOps {

  function Abs(a: int): (r: nat)
    ensures r == a || r == -a
  {
    if a < 0 then -a else a
  }

  /** Rust `a / b` on signed integers: the quotient rounded toward zero. */
  function TruncDiv(a: int, b: int): (q: int)
    requires b != 0
  {
    if (a < 0) == (b < 0) then Abs(a) / Abs(b) else -(Abs(a) / Abs(b))
  }

  /** Rust `a % b` on signed integers: the remainder takes the sign of `a`. */
  function TruncRem(a: int, b: int): (m: int)
    requires b != 0
    ensures a == TruncDiv(a, b) * b + m
    ensures Abs(m) < Abs(b)
    ensures a >= 0 ==> 0 <= m
    ensures a <= 0 ==> m <= 0
  {
    var q := TruncDiv(a, b);
    var m := a - q * b;
    TruncBounds(a, b);
    m
  }

  lemma TruncBounds(a: int, b: int)
    requires b != 0
    ensures var m := a - TruncDiv(a, b) * b;
      Abs(m) < Abs(b) && (a >= 0 ==> 0 <= m) && (a <= 0 ==> m <= 0)
  {
    var q, r := Euclid(Abs(a), Abs(b));
    var t := TruncDiv(a, b) * b;
    if a >= 0 && b > 0 {
      assert t == q * b;
    } else if a >= 0 {
      assert t == (-q) * b;
      MulNegNeg(q, -b);
    } else if b > 0 {
      assert t == (-q) * b;
      MulNeg(q, b);
    } else {
      assert t == q * b;
      MulNeg(q, -b);
    }
  }

  /** Euclidean division of naturals, with the quotient and remainder named. */
  lemma Euclid(a: nat, b: nat) returns (q: nat, r: nat)
    requires b > 0
    ensures q == a / b && a == q * b + r && r < b
  {
    q, r := a / b, a % b;
  }

  lemma MulNeg(x: int, y: int)
    ensures (-x) * y == -(x * y) && x * (-y) == -(x * y)
  {
  }

  lemma MulNegNeg(x: int, y: int)
    ensures (-x) * (-y) == x * y
  {
  }

  /** On non-negative operands Rust's operators agree with Dafny's. */
  lemma {:induction false} TruncAgreesOnNatural(a: int, b: int)
    requires a >= 0 && b > 0
    ensures TruncDiv(a, b) == a / b && TruncRem(a, b) == a % b
  {
    assert a == (a / b) * b + a % b;
  }

  /** A remainder of a value already in `[0, b)` is that value. */
  lemma TruncRemSmall(a: int, b: int)
    requires 0 <= a < b
    ensures TruncRem(a, b) == a
  {
    var q := a / b;
    assert a == q * b + a % b;
    if q >= 1 {
      MulMonotone(1, q, b);
      assert false;
    } else if q < 0 {
      MulMonotone(q, -1, b);
      assert false;
    }
    assert TruncDiv(a, b) == 0;
  }

  /** One more copy of a. */
  lemma MulSucc(a: int, n: int)
    ensures a * (n + 1) == a * n + a && (n + 1) * a == n * a + a
  {
  }

  lemma MulMonotone(a: int, b: int, c: int)
    requires 0 <= c && a <= b
    ensures a * c <= b * c
  {
    assert b * c - a * c == (b - a) * c;
  }

  /** The row-major index of an in-grid cell lies inside the buffer. */
  lemma IndexInRange(x: int, y: int, w: int, h: int)
    requires 0 <= x < w && 0 <= y < h
    ensures 0 <= y * w + x < w * h
  {
    MulMonotone(0, y, w);
    MulMonotone(y + 1, h, w);
    assert (y + 1) * w == y * w + w;
  }

  /** Two in-grid cells with the same row-major index are the same cell. */
  lemma IndexInjective(x1: int, y1: int, x2: int, y2: int, w: int)
    requires 0 <= x1 < w && 0 <= x2 < w && 0 <= y1 && 0 <= y2
    requires y1 * w + x1 == y2 * w + x2
    ensures x1 == x2 && y1 == y2
  {
    if y1 < y2 {
      assert (y1 + 1) * w == y1 * w + w;
      MulMonotone(y1 + 1, y2, w);
      assert false;
    } else if y2 < y1 {
      assert (y2 + 1) * w == y2 * w + w;
      MulMonotone(y2 + 1, y1, w);
      assert false;
    }
  }

  /** Every buffer index is the row-major index of exactly one in-grid cell. */
  lemma IndexSplit(k: int, w: int, h: int)
    requires 0 <= w && 0 <= h && 0 <= k < w * h
    ensures w > 0 && 0 <= k % w < w && 0 <= k / w < h && (k / w) * w + k % w == k
  {
    if w == 0 {
      assert false;
    }
    assert k == (k / w) * w + k % w;
    if k / w >= h {
      MulMonotone(h, k / w, w);
      assert false;
    }
  }

  /** Multiplying by a positive b and then dividing by it gives back a. */
  lemma MulDivCancel(a: nat, b: int)
    requires b > 0
    ensures (a * b) / b == a
  {
    var q, r := (a * b) / b, (a * b) % b;
    assert a * b == q * b + r && 0 <= r < b;
    if q < a {
      MulMonotone(q + 1, a, b);
      assert false;
    } else if q > a {
      MulMonotone(a + 1, q, b);
      assert false;
    }
  }

  /** Rust's division undoes a multiplication by the same non-zero factor. */
  lemma TruncDivExact(a: int, b: int)
    requires b != 0
    ensures TruncDiv(a * b, b) == a
  {
    assert Abs(a * b) == Abs(a) * Abs(b) by {
      if a < 0 && b < 0 {
        assert a * b == (-a) * (-b);
      } else if a < 0 {
        assert a * b == -((-a) * b);
      } else if b < 0 {
        assert a * b == -(a * (-b));
      }
    }
    MulDivCancel(Abs(a), Abs(b));
    if a == 0 {
      assert a * b == 0;
    }
  }
}
