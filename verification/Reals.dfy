/** Exact real arithmetic: absolute values, squares and the inequalities of the plane. */
module Reals {

  function Abs(x: real): real {
    if x < 0.0 then -x else x
  }

  /** sqrt is left abstract: any function that squares back on nonnegative numbers. */
  ghost predicate IsSqrt(sqrt: real -> real) {
    forall x :: x >= 0.0 ==> sqrt(x) >= 0.0 && sqrt(x) * sqrt(x) == x
  }

  function Square(x: real): real {
    x * x
  }

  lemma SquareNonnegative(x: real)
    ensures Square(x) >= 0.0
  {
  }

  lemma ProductPositive(x: real, y: real)
    requires x > 0.0 && y > 0.0
    ensures x * y > 0.0
  {
  }

  lemma SquarePositive(x: real)
    requires x > 0.0
    ensures Square(x) > 0.0
  {
    var half := x / 2.0;
    ProductPositive(x, half);
    assert Square(x) == 2.0 * (x * half);
  }

  lemma Larger(x: real, y: real, f: real)
    requires x > y && f > 0.0
    ensures x * f > y * f
  {
    ProductPositive(x - y, f);
    assert (x - y) * f == x * f - y * f;
  }

  lemma SquareGrows(a: real, b: real)
    requires a > b >= 0.0
    ensures Square(a) > Square(b)
  {
    if b > 0.0 {
      Larger(a, b, a);
      Larger(a, b, b);
      assert a * b == b * a;
    } else {
      SquarePositive(a);
      assert b == 0.0 && Square(b) == 0.0;
    }
  }

  lemma SquareLess(a: real, b: real)
    requires a >= 0.0 && b >= 0.0 && Square(a) <= Square(b)
    ensures a <= b
  {
    if a > b {
      SquareGrows(a, b);
    }
  }

  lemma SquareProduct(a: real, b: real)
    ensures Square(a * b) == Square(a) * Square(b)
  {
    assert (a * b) * (a * b) == (a * a) * (b * b);
  }

  /** (xu + yv)^2 <= (x^2 + y^2)(u^2 + v^2). */
  lemma CauchySchwarz(x: real, y: real, u: real, v: real)
    ensures Square(x * u + y * v) <= (Square(x) + Square(y)) * (Square(u) + Square(v))
  {
    SquareProduct(x, u);
    SquareProduct(y, v);
    SquareProduct(x, v);
    SquareProduct(y, u);
    var d := x * v - y * u;
    SquareNonnegative(d);
    calc {
      (Square(x) + Square(y)) * (Square(u) + Square(v));
    ==
      Square(x) * Square(u) + Square(x) * Square(v) + Square(y) * Square(u) + Square(y) * Square(v);
    ==
      Square(x * u) + Square(x * v) + Square(y * u) + Square(y * v);
    == { assert Square(d) == Square(x * v) - 2.0 * ((x * v) * (y * u)) + Square(y * u);
         assert (x * v) * (y * u) == (x * u) * (y * v);
         assert Square(x * u + y * v) == Square(x * u) + 2.0 * ((x * u) * (y * v)) + Square(y * v); }
      Square(x * u + y * v) + Square(d);
    }
  }

  /** Minkowski's inequality in the plane, squared form. */
  lemma PlaneTriangle(x: real, y: real, u: real, v: real, p: real, q: real, r: real)
    requires p >= 0.0 && q >= 0.0 && r >= 0.0
    requires Square(p) == Square(x) + Square(y) && Square(q) == Square(u) + Square(v)
    requires Square(r) == Square(x + u) + Square(y + v)
    ensures r <= p + q
  {
    CauchySchwarz(x, y, u, v);
    var dot := x * u + y * v;
    SquareProduct(p, q);
    assert Square(dot) <= Square(p * q);
    assert p * q >= 0.0;
    assert dot <= p * q by {
      if dot > 0.0 {
        SquareLess(dot, p * q);
      }
    }
    assert Square(x + u) == Square(x) + 2.0 * (x * u) + Square(u);
    assert Square(y + v) == Square(y) + 2.0 * (y * v) + Square(v);
    assert Square(p + q) == Square(p) + 2.0 * (p * q) + Square(q);
    SquareLess(r, p + q);
  }

  lemma DivideMonotone(a: real, b: real, speed: real)
    requires speed > 0.0 && a <= b
    ensures a / speed <= b / speed
  {
  }

  lemma Scale(a: real, b: real, c: real)
    requires c > 0.0 && a * c <= b * c
    ensures a <= b
  {
    if a > b {
      Larger(a, b, c);
    }
  }
}
