/** Plane geometry shared by every entity: points, squared distances, the
    toroidal wrap of the play field, and the numeric functions (cosine, sine,
    square root) that the game takes from the runtime and that this model
    receives as parameters instead of defining them. */
module Geometry {

  /** A point or a vector of the plane (the source's PointF), on reals. */
  datatype Vec = Vec(x: real, y: real)

  /** Math.PI as the double the source reads. */
  const Pi: real := 3.141592653589793

  /** The runtime's Math.Cos, Math.Sin and Math.Sqrt. The model never fixes
      their values: `Cos` and `Sin` below read them through `Unit`, so they
      stand for arbitrary functions into [-1, 1], and the one lemma that needs
      the square root to be exact says so through `ExactSqrt`. */
  datatype Trig = Trig(cos: real -> real, sin: real -> real, sqrt: real -> real)

  /** Limits a value to [-1, 1]; the identity on values already there, so any
      true cosine or sine passes through unchanged. */
  function Unit(x: real): (r: real)
    ensures -1.0 <= r <= 1.0
    ensures -1.0 <= x <= 1.0 ==> r == x
  {
    if x < -1.0 then -1.0 else if 1.0 < x then 1.0 else x
  }

  function Cos(t: Trig, a: real): (r: real)
    ensures -1.0 <= r <= 1.0
  {
    Unit(t.cos(a))
  }

  function Sin(t: Trig, a: real): (r: real)
    ensures -1.0 <= r <= 1.0
  {
    Unit(t.sin(a))
  }

  function Sqrt(t: Trig, x: real): real {
    t.sqrt(x)
  }

  /** The square root is the non-negative root of a non-negative argument. */
  ghost predicate ExactSqrt(t: Trig) {
    forall x :: 0.0 <= x ==> 0.0 <= Sqrt(t, x) && Sqrt(t, x) * Sqrt(t, x) == x
  }

  function Sq(x: real): real { x * x }

  /** Squared Euclidean distance; the model compares these instead of the
      square roots the source takes. */
  function Dist2(a: Vec, b: Vec): real {
    Sq(a.x - b.x) + Sq(a.y - b.y)
  }

  /** Comparing a distance with a non-negative bound is the same as comparing
      the squared distance with the squared bound, so every `distance < r`
      test of the source becomes `Dist2 < r * r` here. */
  lemma SqrtCompare(t: Trig, d2: real, r: real)
    requires ExactSqrt(t)
    requires 0.0 <= d2 && 0.0 <= r
    ensures Sqrt(t, d2) < r <==> d2 < r * r
  {
    var s := Sqrt(t, d2);
    assert 0.0 <= s && s * s == d2;
    if s < r {
      SquareLt(s, r);
    } else {
      SquareLe(r, s);
    }
  }

  lemma MulPos(x: real, y: real)
    requires 0.0 < x && 0.0 < y
    ensures 0.0 < x * y
  {
  }

  lemma MulNonNeg(x: real, y: real)
    requires 0.0 <= x && 0.0 <= y
    ensures 0.0 <= x * y
  {
  }

  lemma SquareLt(a: real, b: real)
    requires 0.0 <= a < b
    ensures a * a < b * b
  {
    assert b * b - a * a == (b - a) * (b + a);
    MulPos(b - a, b + a);
  }

  lemma SquareLe(a: real, b: real)
    requires 0.0 <= a <= b
    ensures a * a <= b * b
  {
    assert b * b - a * a == (b - a) * (b + a);
    MulNonNeg(b - a, b + a);
  }

  /** A factor of magnitude at most one scales a non-negative length to at
      most that length. */
  lemma ScaledBy(c: real, s: real)
    requires -1.0 <= c <= 1.0 && 0.0 <= s
    ensures -s <= c * s <= s
  {
    MulNonNeg(1.0 - c, s);
    MulNonNeg(1.0 + c, s);
    assert (1.0 - c) * s == s - c * s;
    assert (1.0 + c) * s == s + c * s;
  }

  lemma Dist2Symmetric(a: Vec, b: Vec)
    ensures Dist2(a, b) == Dist2(b, a)
    ensures 0.0 <= Dist2(a, b)
  {
    assert Sq(a.x - b.x) == Sq(b.x - a.x);
    assert Sq(a.y - b.y) == Sq(b.y - a.y);
    SqNonNeg(a.x - b.x);
    SqNonNeg(a.y - b.y);
  }

  lemma SqNonNeg(x: real)
    ensures 0.0 <= Sq(x)
  {
    if x < 0.0 {
      MulPos(-x, -x);
      assert (-x) * (-x) == x * x;
    } else {
      MulNonNeg(x, x);
    }
  }

  /** If q * m == x and k is the floor of q, then x lies in [k * m, k * m + m). */
  lemma Bracket(x: real, m: real, q: real, k: real)
    requires 0.0 < m && q * m == x && k <= q < k + 1.0
    ensures k * m <= x < k * m + m
  {
    MulNonNeg(q - k, m);
    Distribute(q, k, m);
    Below(q * m, m, q, k + 1.0);
    Distribute(k + 1.0, 1.0, m);
  }

  /** A multiple q * m lies below c * m for every c above q. */
  lemma Below(x: real, m: real, q: real, c: real)
    requires 0.0 < m && q * m == x && q < c
    ensures x < c * m
  {
    MulPos(c - q, m);
    Distribute(c, q, m);
  }

  lemma Distribute(a: real, b: real, m: real)
    ensures (a - b) * m == a * m - b * m
  {
  }

  /** The truncated quotient of a non-negative dividend brackets it between
      two consecutive multiples of the divisor. */
  lemma QuotientBounds(x: real, m: real)
    requires 0.0 < m && 0.0 <= x
    ensures (x / m).Floor as real * m <= x < (x / m).Floor as real * m + m
  {
    var q := x / m;
    assert q * m == x;
    Bracket(x, m, q, q.Floor as real);
  }

  /** C#'s `%` on floating-point operands: the remainder of division truncated
      toward zero, so it carries the sign of the dividend and differs from
      it by a whole multiple of the divisor. */
  function FMod(x: real, m: real): (r: real)
    requires 0.0 < m
    ensures 0.0 <= x ==> 0.0 <= r < m
    ensures x < 0.0 ==> -m < r <= 0.0
    ensures ((x - r) / m).Floor as real == (x - r) / m
  {
    if 0.0 <= x then
      var r := NonNegMod(x, m);
      Whole((x - r) / m, (x / m).Floor);
      r
    else
      var r := NonNegMod(-x, m);
      NegatedQuotient(x, r, m);
      Whole((x - -r) / m, -(-x / m).Floor);
      -r
  }

  /** A real equal to an integer is its own floor. */
  lemma Whole(q: real, n: int)
    requires q == n as real
    ensures q.Floor as real == q
  {
  }

  /** Negating dividend and remainder negates the quotient. */
  lemma NegatedQuotient(x: real, r: real, m: real)
    requires 0.0 < m
    ensures (x - -r) / m == -((-x - r) / m)
  {
  }

  /** The remainder of a non-negative dividend: x minus the largest multiple
      of m not above it, so that (x - r) / m is that whole number. */
  function NonNegMod(x: real, m: real): (r: real)
    requires 0.0 < m && 0.0 <= x
    ensures 0.0 <= r < m
    ensures (x - r) / m == (x / m).Floor as real
  {
    QuotientBounds(x, m);
    var q := (x / m).Floor as real;
    assert (q * m) / m == q;
    x - q * m
  }

  lemma DivLt(x: real, m: real, n: real)
    requires 0.0 < m && x < n * m
    ensures x / m < n
  {
  }

  lemma DivGe(x: real, m: real, n: real)
    requires 0.0 < m && n * m <= x
    ensures n <= x / m
  {
  }

  /** On a dividend below three times the divisor, the remainder removes
      exactly as many whole divisors as fit: none, one or two. */
  lemma FModSmall(x: real, m: real)
    requires 0.0 < m && 0.0 <= x < 3.0 * m
    ensures x < m ==> FMod(x, m) == x
    ensures m <= x < 2.0 * m ==> FMod(x, m) == x - m
    ensures 2.0 * m <= x ==> FMod(x, m) == x - 2.0 * m
  {
    if x < m {
      DivGe(x, m, 0.0);
      DivLt(x, m, 1.0);
      assert (x / m).Floor == 0;
    } else if x < 2.0 * m {
      DivGe(x, m, 1.0);
      DivLt(x, m, 2.0);
      assert (x / m).Floor == 1;
    } else {
      DivGe(x, m, 2.0);
      DivLt(x, m, 3.0);
      assert (x / m).Floor == 2;
    }
  }

  /** One axis of the toroidal move every entity performs:
      `(position + displacement + extent) % extent`. */
  function Wrap(p: real, d: real, extent: int): (r: real)
    requires 0 < extent
    ensures 0.0 <= p + d + extent as real ==> 0.0 <= r < extent as real
  {
    FMod(p + d + extent as real, extent as real)
  }

  /** Toroidal wrap: a move that stays on the field is kept as it is, and a
      move that leaves it by less than one extent re-enters from the opposite
      edge. */
  lemma WrapToroidal(p: real, d: real, extent: int)
    requires 0 < extent
    requires -(extent as real) <= p + d < 2.0 * extent as real
    ensures 0.0 <= p + d < extent as real ==> Wrap(p, d, extent) == p + d
    ensures p + d < 0.0 ==> Wrap(p, d, extent) == p + d + extent as real
    ensures extent as real <= p + d ==> Wrap(p, d, extent) == p + d - extent as real
  {
    FModSmall(p + d + extent as real, extent as real);
  }

  /** The displacement of `dist` along heading `angle`: (cos, sin) scaled by
      the distance; each component is within the distance. */
  function Along(t: Trig, angle: real, dist: real): (v: Vec)
    ensures 0.0 <= dist ==> -dist <= v.x <= dist && -dist <= v.y <= dist
  {
    var c, s := Cos(t, angle), Sin(t, angle);
    if 0.0 <= dist then ScaledBy(c, dist); ScaledBy(s, dist); Vec(c * dist, s * dist)
    else Vec(c * dist, s * dist)
  }

  /** A move by `v` on the w-by-h torus, each axis wrapped as the source does.
      A point on the field, moved by less than one extent on each axis, lands
      on the field. */
  function Move(p: Vec, v: Vec, w: int, h: int): (r: Vec)
    requires 0 < w && 0 < h
    ensures InField(p, w, h) && -(w as real) < v.x && -(h as real) < v.y ==> InField(r, w, h)
  {
    Vec(Wrap(p.x, v.x, w), Wrap(p.y, v.y, h))
  }

  /** A position inside the play field [0, w) x [0, h). */
  predicate InField(p: Vec, w: int, h: int) {
    0.0 <= p.x < w as real && 0.0 <= p.y < h as real
  }

  /** A position at most `margin` outside the play field on each axis. */
  predicate NearField(p: Vec, w: int, h: int, margin: real) {
    -margin <= p.x < w as real + margin && -margin <= p.y < h as real + margin
  }
}
