/** Facts about real multiplication and division that the physics proofs
    use. Every product appears as a parameter tied to its factors by a
    `requires`, so that each proof obligation stays small. */
module RealFacts {
  import opened Basics

  lemma MulPos(a: real, b: real, c: real)
    requires a > 0.0 && b > 0.0
    requires c == a * b
    ensures c > 0.0
  {
  }

  lemma MulNonneg(a: real, b: real, c: real)
    requires a >= 0.0 && b >= 0.0
    requires c == a * b
    ensures c >= 0.0
  {
  }

  /** Equal factors give equal products; the solver does not always see it. */
  lemma ScaleEqual(a: real, b: real, c: real)
    requires a == b
    ensures a * c == b * c
  {
  }

  lemma ZeroFactor(x: real, s: real)
    requires s > 0.0
    requires x * s == 0.0
    ensures x == 0.0
  {
  }

  lemma QuotientTimes(a: real, d: real, q: real)
    requires d != 0.0
    requires q == a / d
    ensures q * d == a
  {
  }

  lemma SquareOfProduct(n: real, d: real, a: real, p: real, s: real)
    requires n * d == a
    requires p == n * n && s == d * d
    ensures p * s == a * a
  {
    assert (n * d) * (n * d) == (n * n) * (d * d);
  }

  lemma SumOfScaled(p: real, q: real, s: real, a: real, b: real)
    requires p * s == a && q * s == b && a + b == s
    ensures (p + q - 1.0) * s == 0.0
  {
  }

  lemma UnitCore(dx: real, dy: real, d: real, s: real, nx: real, ny: real, p: real, q: real)
    requires d > 0.0 && s == d * d && dx * dx + dy * dy == s
    requires nx * d == dx && ny * d == dy
    requires p == nx * nx && q == ny * ny
    ensures p + q == 1.0
  {
    SquareOfProduct(nx, d, dx, p, s);
    SquareOfProduct(ny, d, dy, q, s);
    MulPos(d, d, s);
    SumOfScaled(p, q, s, dx * dx, dy * dy);
    ZeroFactor(p + q - 1.0, s);
  }

  /** Dividing a vector by its length gives a unit vector. */
  lemma UnitNormal(dx: real, dy: real, d: real)
    requires d > 0.0 && d * d == dx * dx + dy * dy
    ensures (dx / d) * (dx / d) + (dy / d) * (dy / d) == 1.0
  {
    var nx, ny := dx / d, dy / d;
    QuotientTimes(dx, d, nx);
    QuotientTimes(dy, d, ny);
    UnitCore(dx, dy, d, d * d, nx, ny, nx * nx, ny * ny);
  }

  /** Adding k times a unit vector n to a velocity adds k to its component
      along n and leaves its component across n alone. */
  lemma PushAlongNormal(vx: real, vy: real, nx: real, ny: real, k: real)
    requires nx * nx + ny * ny == 1.0
    ensures (vx + k * nx) * nx + (vy + k * ny) * ny == vx * nx + vy * ny + k
    ensures (vx + k * nx) * -ny + (vy + k * ny) * nx == vx * -ny + vy * nx
  {
    assert k * nx * nx + k * ny * ny == k * (nx * nx + ny * ny);
  }

  /** Scaling a vector of length sp by m / sp gives a vector of squared length m * m. */
  lemma RescaledLength(vx: real, vy: real, sp: real, m: real)
    requires sp > 0.0 && sp * sp == vx * vx + vy * vy
    ensures (vx * (m / sp)) * (vx * (m / sp)) + (vy * (m / sp)) * (vy * (m / sp)) == m * m
  {
    var nx, ny := vx / sp, vy / sp;
    UnitNormal(vx, vy, sp);
    ScaleUnit(nx, ny, m, vx * (m / sp), vy * (m / sp));
  }

  lemma ScaleUnit(nx: real, ny: real, m: real, ux: real, uy: real)
    requires nx * nx + ny * ny == 1.0
    requires ux == nx * m && uy == ny * m
    ensures ux * ux + uy * uy == m * m
  {
    assert ux * ux + uy * uy == (nx * nx + ny * ny) * (m * m);
  }

  /** A non-negative m below sp in square is below sp, so m / sp is a
      factor in [0, 1). */
  lemma ShrinkFactor(m: real, sp: real, mm: real, ss: real)
    requires m >= 0.0 && sp > 0.0
    requires mm == m * m && ss == sp * sp && mm < ss
    ensures 0.0 <= m / sp < 1.0
  {
    if m >= sp {
      SquareMono(sp, m, ss, mm);
      assert false;
    }
    FractionBelowOne(m, sp);
  }

  lemma FractionBelowOne(m: real, sp: real)
    requires 0.0 <= m < sp
    ensures 0.0 <= m / sp < 1.0
  {
  }

  lemma SquareMono(a: real, b: real, aa: real, bb: real)
    requires 0.0 < a <= b
    requires aa == a * a && bb == b * b
    ensures aa <= bb
  {
    assert a * a <= a * b;
    assert a * b <= b * b;
  }

  /** A coordinate difference is shorter than any bound on the whole distance. */
  lemma ComponentBelow(a: real, b: real, m: real)
    requires m > 0.0
    requires a * a + b * b < m * m
    ensures Abs(a) < m
  {
    var u := Abs(a);
    assert u * u == a * a;
    if u >= m {
      SquareMono(m, u, m * m, u * u);
      assert false;
    }
  }

  /** A draw r in [0, 1) scaled by n picks an index below n. */
  lemma ScaledIndex(r: real, n: nat)
    requires 0.0 <= r < 1.0 && n > 0
    ensures 0 <= (r * n as real).Floor < n
  {
    var rn := r * n as real;
    MulNonneg(r, n as real, rn);
    assert rn < n as real by {
      MulPos(1.0 - r, n as real, (1.0 - r) * n as real);
      assert (1.0 - r) * n as real == n as real - rn;
    }
  }

  /** A draw r in [0, 1) scaled by a positive extent stays inside [0, extent). */
  lemma ScaledDraw(r: real, w: real)
    requires 0.0 <= r < 1.0 && w > 0.0
    ensures 0.0 <= r * w < w
  {
    MulNonneg(r, w, r * w);
    MulPos(1.0 - r, w, (1.0 - r) * w);
    assert (1.0 - r) * w == w - r * w;
  }
}
