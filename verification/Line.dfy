/** The line loop of VBEDrawLine in drivers/Vesa.c. */
module Line {
  import opened Divisors

  datatype Point = Point(x: int, y: int)

  function Abs(n: int): nat { if n < 0 then -n else n }
  function Max(a: int, b: int): int { if a < b then b else a }
  function Sign(from: int, to: int): int { if from < to then 1 else -1 }

  /** Twice the signed distance of a point from the true line, times its longer side. */
  function Deviation(p: Point, from: Point, to: Point): int
  {
    2 * (Abs(to.x - from.x) * ((p.y - from.y) * Sign(from.y, to.y))
       - Abs(to.y - from.y) * ((p.x - from.x) * Sign(from.x, to.x)))
  }

  /** The point lies within half a pixel of the line through the end points. */
  predicate Nearest(p: Point, from: Point, to: Point)
  {
    -Max(Abs(to.x - from.x), Abs(to.y - from.y)) <= Deviation(p, from, to)
      <= Max(Abs(to.x - from.x), Abs(to.y - from.y))
  }

  /** One pixel further along the longer axis, and at most one along the other. */
  predicate Follows(p: Point, q: Point, from: Point, to: Point)
  {
    var ax, ay := (q.x - p.x) * Sign(from.x, to.x), (q.y - p.y) * Sign(from.y, to.y);
    && 0 <= ax <= 1 && 0 <= ay <= 1
    && (if Abs(to.x - from.x) >= Abs(to.y - from.y) then ax == 1 else ay == 1)
  }

  // ----- arithmetic of the error term

  lemma Multiple(p: int, k: int)
    requires p >= 0
    ensures k >= 1 ==> p * k >= p
    ensures k <= -1 ==> p * k <= -p
  {
    if k >= 1 {
      assert p * k == p + p * (k - 1);
      NonNegative(p, k - 1);
    } else if k <= -1 {
      assert p * k == -p - p * (-k - 1);
      NonNegative(p, -k - 1);
    }
  }

  lemma NonNegative(p: int, k: int)
    requires p >= 0 && k >= 0
    ensures p * k >= 0
  {
  }

  /** a and b steps have been made along the axes; d is the deviation. */
  predicate Balanced(dx: int, dy: int, a: int, b: int, d: int)
  {
    && 0 <= a <= dx && 0 <= b <= dy && d == dx * b - dy * a
    && (dx >= dy ==> -dx <= 2 * d && (2 * d < dx || dx == 0))
    && (dx < dy ==> -dy < 2 * d <= dy)
  }

  /** The steps along both axes end together. */
  lemma EndTogether(dx: int, dy: int, a: int, b: int, d: int)
    requires Balanced(dx, dy, a, b, d)
    ensures dx >= dy && a == dx ==> b == dy
    ensures dx < dy && b == dy ==> a == dx
  {
    if dx >= dy && a == dx {
      assert d == dx * (b - dy) by { Distribute(dx, b, dy); }
      Multiple(dx, b - dy);
    } else if dx < dy && b == dy {
      assert d == dy * (dx - a) by { Distribute(dy, dx, a); }
      Multiple(dy, dx - a);
    }
  }

  lemma Distribute(p: int, x: int, y: int)
    ensures p * (x - y) == p * x - p * y
  {
  }

  /** The step the loop takes: its two tests, on err == d + dx - dy. */
  function StepX(dy: int, err: int): int { if 2 * err > -dy then 1 else 0 }
  function StepY(dx: int, err: int): int { if 2 * err < dx then 1 else 0 }

  /** Away from the end the longer axis always advances and neither oversteps. */
  lemma StepKeepsBalance(dx: int, dy: int, a: int, b: int, d: int)
    requires Balanced(dx, dy, a, b, d) && !(a == dx && b == dy)
    ensures var err := d + dx - dy;
            var i, j := StepX(dy, err), StepY(dx, err);
            && (if dx >= dy then i == 1 else j == 1)
            && Balanced(dx, dy, a + i, b + j, d - i * dy + j * dx)
  {
    EndTogether(dx, dy, a, b, d);
    if dx == dy { Diagonal(dx, a, b, d); }
    var err := d + dx - dy;
    var i, j := StepX(dy, err), StepY(dx, err);
    NextDeviation(dx, dy, a, b, i, j);
    if dx >= dy { NoOverstepY(dx, dy, a + i, b + j); } else { NoOverstepX(dx, dy, a + i, b + j); }
  }

  lemma NextDeviation(dx: int, dy: int, a: int, b: int, i: int, j: int)
    ensures dx * (b + j) - dy * (a + i) == dx * b - dy * a - i * dy + j * dx
  {
    Distribute(dx, b, -j);
    Distribute(dy, a, -i);
  }

  lemma NoOverstepY(dx: int, dy: int, a: int, b: int)
    requires dx >= dy >= 0 && 0 <= a <= dx && dx > 0 && 2 * (dx * b - dy * a) < dx
    ensures b <= dy
  {
    if b > dy {
      assert dx * b - dy * a == dx * (b - dy) + dy * (dx - a) by { Distribute(dx, b, dy); Distribute(dy, dx, a); }
      Multiple(dx, b - dy);
      NonNegative(dy, dx - a);
    }
  }

  lemma NoOverstepX(dx: int, dy: int, a: int, b: int)
    requires dy > dx >= 0 && 0 <= b <= dy && -dy < 2 * (dx * b - dy * a)
    ensures a <= dx
  {
    if a > dx {
      assert dx * b - dy * a == dy * (dx - a) - dx * (dy - b) by { Distribute(dx, dy, b); Distribute(dy, dx, a); }
      Multiple(dy, dx - a);
      NonNegative(dx, dy - b);
    }
  }

  lemma Diagonal(dx: int, a: int, b: int, d: int)
    requires Balanced(dx, dx, a, b, d)
    ensures d == 0
  {
    assert d == dx * (b - a) by { Distribute(dx, b, a); }
    Multiple(dx, b - a);
  }

  // ----- the error terms in 32 bits

  const INT_MIN: int := -0x8000_0000
  const INT_MAX: int := 0x7FFF_FFFF

  predicate Int32(n: int) { INT_MIN <= n <= INT_MAX }

  /** What a 32-bit register holds of a sum. */
  function Wrap32(n: int): int { (n + 0x8000_0000) % 0x1_0000_0000 - 0x8000_0000 }

  /** The values computed in one turn, at deviation d: `2 * err`, `err - dy` if x steps, and the new error. */
  predicate TermsFit(dx: int, dy: int, d: int)
  {
    var err := d + dx - dy;
    var i, j := StepX(dy, err), StepY(dx, err);
    Int32(err) && Int32(2 * err) && (i == 1 ==> Int32(err - dy)) && Int32(err - i * dy + j * dx)
  }

  /** Exactly the lines none of whose turns overflows. The deviations met are the
      multiples of the greatest common divisor of the sides, up to half the longer one. */
  predicate FitsInt32(dx: nat, dy: nat)
  {
    && dx <= INT_MAX && dy <= INT_MAX
    && (dx > 0 || dy > 0 ==>
          var g := if dx >= dy then Gcd(dy, dx) else Gcd(dx, dy);
          g > 0 &&
          if dx >= dy then
            && 2 * (dx - dy) + 2 * (g * ((dx / g - 1) / 2)) <= INT_MAX
            && dx - 2 * dy - g * (dx / g / 2) >= INT_MIN
          else
            && 2 * (dx - dy) - 2 * (g * ((dy / g - 1) / 2)) >= INT_MIN
            && (dx > 0 ==> FirstXStep(dx, dy, g) + dx - 2 * dy >= INT_MIN))
  }

  /** On a steep line x steps exactly from this deviation on. */
  function FirstXStep(dx: int, dy: int, g: int): int
    requires g > 0
  {
    g * ((dy - 2 * dx) / (2 * g) + 1)
  }

  lemma Quotient(n: int, g: int)
    requires n >= 0 && g > 0 && Divides(g, n)
    ensures n == g * (n / g)
  {
    var k: int :| n == k * g;
    assert k >= 0 by { if k < 0 { Multiple(g, k); } }
    DivisionOf(g, k);
  }

  lemma DivisionOf(g: int, k: int)
    requires g > 0
    ensures g * k / g == k
  {
    var q, r := g * k / g, g * k % g;
    assert g * k == g * q + r;
    assert g * (k - q) == r by { Distribute(g, k, q); }
    Multiple(g, k - q);
  }

  lemma Scale(g: int, a: int, b: int)
    requires g >= 0 && a <= b
    ensures g * a <= g * b
  {
    NonNegative(g, b - a);
    Distribute(g, b, a);
  }

  /** The multiples of g whose double lies in [-n, n). */
  lemma HalfWindow(n: int, g: int, e: int)
    requires g > 0 && n > 0 && Divides(g, n) && Divides(g, e) && -n <= 2 * e < n
    ensures -(g * (n / g / 2)) <= e <= g * ((n / g - 1) / 2)
  {
    Quotient(n, g);
    var q := n / g;
    var k: int :| e == k * g;
    WithinQuotient(g, q, k);
    Between(g, -(q / 2), k, (q - 1) / 2);
  }

  lemma Between(g: int, lo: int, k: int, hi: int)
    requires g >= 0 && lo <= k <= hi
    ensures g * lo <= k * g <= g * hi && g * lo == -(g * (-lo))
  {
    Scale(g, lo, k);
    Scale(g, k, hi);
  }

  lemma WithinQuotient(g: int, q: int, k: int)
    requires g > 0 && -(g * q) <= 2 * (k * g) < g * q
    ensures -q <= 2 * k < q
  {
    if 2 * k >= q { Scale(g, q, 2 * k); }
    if 2 * k < -q { Scale(g, 2 * k + 1, -q); }
  }

  /** The ends of that window are multiples inside it. */
  lemma WindowEnds(n: int, g: int)
    requires g > 0 && n > 0 && Divides(g, n)
    ensures -n <= -(2 * (g * (n / g / 2))) < n && -n <= 2 * (g * ((n / g - 1) / 2)) < n
  {
    Quotient(n, g);
    var q := n / g;
    Multiple(g, q);
    TwiceAtMost(g, q / 2, q);
    TwiceAtMost(g, (q - 1) / 2, q - 1);
    assert g * (q - 1) == g * q - g by { Distribute(g, q, 1); }
  }

  lemma TwiceAtMost(g: int, h: int, q: int)
    requires g >= 0 && 0 <= 2 * h <= q
    ensures 0 <= 2 * (g * h) <= g * q
  {
    Scale(g, 2 * h, q);
    NonNegative(g, h);
    assert g * (2 * h) == 2 * (g * h);
  }

  /** Along the longer side n the deviation is known up to multiples of n, so where
      it may be k * g it can be nothing else in the window. */
  lemma OnlyMultiple(n: int, c: int, g: int, k: int, i: int, z: int, j: int, e: int)
    requires n > 0 && c * i == -(k * g) + n * z && e == n * j - c * i
    requires -n <= 2 * (k * g) < n && -n <= 2 * e < n
    ensures e == k * g
  {
    Distribute(n, j, z);
    assert e - k * g == n * (j - z);
    Multiple(n, j - z);
  }

  /** The greatest common divisor of the sides divides every deviation. */
  lemma DeviationDivides(dx: nat, dy: nat, a: int, b: int, g: nat)
    requires Divides(g, dx) && Divides(g, dy)
    ensures Divides(g, dx * b - dy * a) && Divides(g, dy * a - dx * b)
  {
    assert 0 == 0 * g;
    DividesSum(g, 0, dx, b);
    DividesSum(g, dx * b, dy, -a);
    DividesSum(g, 0, dy, a);
    DividesSum(g, dy * a, dx, -b);
    assert b * dx == dx * b && a * dy == dy * a && (-a) * dy == -(dy * a) && (-b) * dx == -(dx * b);
  }

  /** The deviations of a flat line lie in the window of dx. */
  lemma FlatWindow(dx: nat, dy: nat, a: int, b: int, d: int, g: nat)
    requires Balanced(dx, dy, a, b, d) && dx >= dy && dx > 0 && g == Gcd(dy, dx)
    ensures g > 0 && Divides(g, dx) && -(g * (dx / g / 2)) <= d <= g * ((dx / g - 1) / 2)
  {
    GcdDivides(dy, dx);
    DeviationDivides(dx, dy, a, b, g);
    HalfWindow(dx, g, d);
  }

  /** Those of a steep line, with the sign changed, in the window of dy. */
  lemma SteepWindow(dx: nat, dy: nat, a: int, b: int, d: int, g: nat)
    requires Balanced(dx, dy, a, b, d) && dx < dy && g == Gcd(dx, dy)
    ensures g > 0 && Divides(g, dy) && Divides(g, dx) && Divides(g, d)
    ensures -(g * (dy / g / 2)) <= -d <= g * ((dy / g - 1) / 2)
  {
    GcdDivides(dx, dy);
    DeviationDivides(dx, dy, a, b, g);
    HalfWindow(dy, g, -d);
  }

  lemma FlatFits(dx: nat, dy: nat, a: int, b: int, d: int)
    requires FitsInt32(dx, dy) && dx >= dy && a < dx && Balanced(dx, dy, a, b, d)
    ensures TermsFit(dx, dy, d)
  {
    var g := Gcd(dy, dx);
    FlatWindow(dx, dy, a, b, d, g);
    StepKeepsBalance(dx, dy, a, b, d);
    var j := StepY(dx, d + dx - dy);
    FlatWindow(dx, dy, a + 1, b + j, d - dy + j * dx, g);
  }

  lemma SteepFits(dx: nat, dy: nat, a: int, b: int, d: int)
    requires FitsInt32(dx, dy) && dx < dy && b < dy && Balanced(dx, dy, a, b, d)
    ensures TermsFit(dx, dy, d)
  {
    var g := Gcd(dx, dy);
    SteepWindow(dx, dy, a, b, d, g);
    StepKeepsBalance(dx, dy, a, b, d);
    var i := StepX(dy, d + dx - dy);
    SteepWindow(dx, dy, a + i, b + 1, d - i * dy + dx, g);
    if i == 1 { FromFirstXStep(dx, dy, g, d); }
  }

  /** FirstXStep is the least multiple of g from which x steps. */
  lemma FromFirstXStep(dx: int, dy: int, g: int, d: int)
    requires g > 0 && Divides(g, d) && 2 * d > dy - 2 * dx
    ensures d >= FirstXStep(dx, dy, g)
  {
    var k: int :| d == k * g;
    var m := (dy - 2 * dx) / (2 * g);
    assert 2 * g * m <= dy - 2 * dx;
    assert 2 * g * k == 2 * d;
    if k <= m { Scale(2 * g, k, m); }
    Scale(g, m + 1, k);
  }

  // ----- the pixels of a line

  /** Steps made along the two axes to reach a pixel. */
  function StepsX(p: Point, from: Point, to: Point): int { (p.x - from.x) * Sign(from.x, to.x) }
  function StepsY(p: Point, from: Point, to: Point): int { (p.y - from.y) * Sign(from.y, to.y) }

  /** Half the deviation: what the error term carries beside dx - dy. */
  function Offset(p: Point, from: Point, to: Point): int
  {
    Abs(to.x - from.x) * StepsY(p, from, to) - Abs(to.y - from.y) * StepsX(p, from, to)
  }

  /** The pixel is the i-th of the line. */
  predicate OnLine(p: Point, from: Point, to: Point, i: int)
  {
    var dx, dy := Abs(to.x - from.x), Abs(to.y - from.y);
    && Balanced(dx, dy, StepsX(p, from, to), StepsY(p, from, to), Offset(p, from, to))
    && (if dx >= dy then StepsX(p, from, to) else StepsY(p, from, to)) == i
  }

  /** The pen: position and error term. */
  datatype Pen = Pen(x: int, y: int, err: int)

  function PenAt(p: Point, from: Point, to: Point): Pen
  {
    Pen(p.x, p.y, Offset(p, from, to) + Abs(to.x - from.x) - Abs(to.y - from.y))
  }

  /** One turn of the loop as the machine makes it, the error term in 32 bits. */
  function Turn32(pen: Pen, from: Point, to: Point): Pen
  {
    var dx: int, dy: int := Abs(to.x - from.x), Abs(to.y - from.y);
    var e2 := Wrap32(2 * pen.err);
    var moved := if e2 > -dy then Pen(pen.x + Sign(from.x, to.x), pen.y, Wrap32(pen.err - dy)) else pen;
    if e2 < dx then Pen(moved.x, moved.y + Sign(from.y, to.y), Wrap32(moved.err + dx)) else moved
  }

  /** No turn of the line overflows. */
  ghost predicate AllFit(pixels: seq<Point>, from: Point, to: Point)
  {
    var dx, dy := Abs(to.x - from.x), Abs(to.y - from.y);
    && Int32(dx) && Int32(dy)
    && forall i :: 0 <= i < |pixels| - 1 ==> TermsFit(dx, dy, Offset(pixels[i], from, to))
  }

  ghost predicate AllOnLine(pixels: seq<Point>, from: Point, to: Point)
  {
    && |pixels| == Max(Abs(to.x - from.x), Abs(to.y - from.y)) + 1
    && forall i :: 0 <= i < |pixels| ==> OnLine(pixels[i], from, to, i)
  }

  /** The states of a flat line before its end, by the step along x, every turn fitting. */
  ghost predicate FlatRun(dx: nat, dy: nat, bs: seq<int>)
  {
    && dy <= dx == |bs| && dx > 0
    && forall i :: 0 <= i < dx ==>
         Balanced(dx, dy, i, bs[i], dx * bs[i] - dy * i) && TermsFit(dx, dy, dx * bs[i] - dy * i)
  }

  /** Those of a steep line, by the step along y. */
  ghost predicate SteepRun(dx: nat, dy: nat, xs: seq<int>)
  {
    && dx < dy == |xs|
    && forall i :: 0 <= i < dy ==>
         Balanced(dx, dy, xs[i], i, dx * i - dy * xs[i]) && TermsFit(dx, dy, dx * i - dy * xs[i])
  }

  /** A flat line meets every multiple of g in its window. */
  lemma FlatMeets(dx: nat, dy: nat, bs: seq<int>, g: int, k: int)
    requires FlatRun(dx, dy, bs) && g == Gcd(dy, dx) && -(dx as int) <= 2 * (k * g) < dx
    ensures TermsFit(dx, dy, k * g) && StepX(dy, k * g + dx - dy) == 1
  {
    hide TermsFit, Gcd;
    var i, z := Met(dy, dx, -k);
    NegatedProduct(k, g);
    var d: int := dx * bs[i] - dy * i;
    assert Balanced(dx, dy, i, bs[i], d);
    OnlyMultiple(dx, dy, g, k, i, z, bs[i], d);
    StepKeepsBalance(dx, dy, i, bs[i], d);
  }

  lemma SteepMeets(dx: nat, dy: nat, xs: seq<int>, g: int, k: int)
    requires SteepRun(dx, dy, xs) && g == Gcd(dx, dy) && -(dy as int) <= 2 * (k * g) < dy
    ensures TermsFit(dx, dy, -(k * g))
  {
    hide TermsFit, Gcd;
    var i, z := Met(dx, dy, -k);
    NegatedProduct(k, g);
    var d: int := dx * i - dy * xs[i];
    assert Balanced(dx, dy, xs[i], i, d);
    OnlyMultiple(dy, dx, g, k, i, z, xs[i], -d);
  }

  lemma NegatedProduct(m: int, g: int)
    ensures (-m) * g == -(m * g) == -(g * m)
  {
  }

  lemma FlatNeeds(dx: nat, dy: nat, bs: seq<int>)
    requires FlatRun(dx, dy, bs) && dx <= INT_MAX
    ensures FitsInt32(dx, dy)
  {
    hide FlatRun, Gcd, TermsFit, FitsInt32;
    FlatRunSides(dx, dy, bs);
    var g: int := Gcd(dy, dx);
    GcdDivides(dy, dx);
    WindowEnds(dx, g);
    var hi, lo := (dx / g - 1) / 2, dx / g / 2;
    NegatedProduct(lo, g);
    NegatedProduct(hi, g);
    FlatMeets(dx, dy, bs, g, hi);
    FlatMeets(dx, dy, bs, g, -lo);
    TermsMean(dx, dy, hi * g);
    TermsMean(dx, dy, (-lo) * g);
    FlatCondition(dx, dy, g, hi, lo);
  }

  lemma FlatRunSides(dx: nat, dy: nat, bs: seq<int>)
    requires FlatRun(dx, dy, bs)
    ensures dy <= dx && dx > 0
  {
  }

  lemma FlatCondition(dx: nat, dy: nat, g: int, hi: int, lo: int)
    requires dy <= dx <= INT_MAX && dx > 0 && g == Gcd(dy, dx) && g > 0 && hi == (dx / g - 1) / 2 && lo == dx / g / 2
    requires 2 * (hi * g + dx - dy) <= INT_MAX && -(lo * g) + dx - dy - dy >= INT_MIN
    ensures FitsInt32(dx, dy)
  {
    hide Gcd;
    assert hi * g == g * hi && lo * g == g * lo;
  }

  lemma SteepNeeds(dx: nat, dy: nat, xs: seq<int>)
    requires SteepRun(dx, dy, xs) && dy <= INT_MAX
    ensures FitsInt32(dx, dy)
  {
    hide SteepRun, Gcd, TermsFit, FitsInt32;
    SteepRunSides(dx, dy, xs);
    var g: int := Gcd(dx, dy);
    GcdDivides(dx, dy);
    WindowEnds(dy, g);
    var hi := (dy / g - 1) / 2;
    NegatedProduct(hi, g);
    SteepMeets(dx, dy, xs, g, hi);
    TermsMean(dx, dy, -(hi * g));
    var m := (dy - 2 * dx) / (2 * g) + 1;
    if dx > 0 {
      FirstXStepInside(dx, dy, g, m);
      NegatedProduct(m, g);
      SteepMeets(dx, dy, xs, g, -m);
      TermsMean(dx, dy, m * g);
    }
    SteepCondition(dx, dy, g, hi, m);
  }

  lemma SteepRunSides(dx: nat, dy: nat, xs: seq<int>)
    requires SteepRun(dx, dy, xs)
    ensures dx < dy
  {
  }

  lemma SteepCondition(dx: nat, dy: nat, g: int, hi: int, m: int)
    requires dx < dy <= INT_MAX && g == Gcd(dx, dy) && g > 0
    requires hi == (dy / g - 1) / 2 && m == (dy - 2 * dx) / (2 * g) + 1
    requires 2 * (-(hi * g) + dx - dy) >= INT_MIN && (dx > 0 ==> m * g + dx - dy - dy >= INT_MIN)
    ensures FitsInt32(dx, dy)
  {
    hide Gcd;
    assert hi * g == g * hi && m * g == g * m;
  }

  lemma FirstXStepInside(dx: nat, dy: nat, g: nat, m: int)
    requires 0 < dx < dy && g > 0 && Divides(g, dx) && m == (dy - 2 * dx) / (2 * g) + 1
    ensures -(dy as int) <= 2 * ((-m) * g) < dy && 2 * (g * m) > dy - 2 * dx
  {
    var t := m - 1;
    assert 2 * g * t <= dy - 2 * dx < 2 * g * t + 2 * g;
    assert 2 * (g * m) == 2 * g * t + 2 * g && (-m) * g == -(g * m);
    Quotient(dx, g);
    Multiple(g, dx / g);
  }

  lemma TermsMean(dx: int, dy: int, d: int)
    requires TermsFit(dx, dy, d)
    ensures Int32(2 * (d + dx - dy)) && (2 * (d + dx - dy) > -dy ==> Int32(d + dx - dy - dy))
  {
  }

  /** The turns of a line all fit 32 bits exactly when its sides satisfy FitsInt32. */
  lemma FitIsExact(pixels: seq<Point>, from: Point, to: Point)
    requires AllOnLine(pixels, from, to)
    ensures AllFit(pixels, from, to) <==> FitsInt32(Abs(to.x - from.x), Abs(to.y - from.y))
  {
    hide TermsFit, FitsInt32;
    var dx, dy := Abs(to.x - from.x), Abs(to.y - from.y);
    SidesFit(dx, dy);
    if FitsInt32(dx, dy) {
      forall i | 0 <= i < |pixels| - 1 ensures TermsFit(dx, dy, Offset(pixels[i], from, to)) {
        assert OnLine(pixels[i], from, to, i);
        var a, b, d := StepsX(pixels[i], from, to), StepsY(pixels[i], from, to), Offset(pixels[i], from, to);
        if dx >= dy { FlatFits(dx, dy, a, b, d); } else { SteepFits(dx, dy, a, b, d); }
      }
    }
    if AllFit(pixels, from, to) && (dx > 0 || dy > 0) {
      if dx >= dy {
        var bs := seq(dx, i requires 0 <= i < dx => StepsY(pixels[i], from, to));
        forall i | 0 <= i < dx
          ensures Balanced(dx, dy, i, bs[i], dx * bs[i] - dy * i) && TermsFit(dx, dy, dx * bs[i] - dy * i)
        {
          assert OnLine(pixels[i], from, to, i);
        }
        FlatNeeds(dx, dy, bs);
      } else {
        var xs := seq(dy, i requires 0 <= i < dy => StepsX(pixels[i], from, to));
        forall i | 0 <= i < dy
          ensures Balanced(dx, dy, xs[i], i, dx * i - dy * xs[i]) && TermsFit(dx, dy, dx * i - dy * xs[i])
        {
          assert OnLine(pixels[i], from, to, i);
        }
        SteepNeeds(dx, dy, xs);
      }
    }
  }

  lemma SidesFit(dx: nat, dy: nat)
    ensures FitsInt32(dx, dy) ==> Int32(dx) && Int32(dy)
    ensures FitsInt32(0, 0)
  {
  }

  /** The pixel after p, in exact arithmetic. */
  function NextPixel(p: Point, from: Point, to: Point): Point
  {
    var dx, dy := Abs(to.x - from.x), Abs(to.y - from.y);
    var err := Offset(p, from, to) + dx - dy;
    Point(p.x + StepX(dy, err) * Sign(from.x, to.x), p.y + StepY(dx, err) * Sign(from.y, to.y))
  }

  lemma WrapFits(n: int)
    requires Int32(n)
    ensures Wrap32(n) == n
  {
  }

  /** A turn whose terms fit is made by the machine as in exact arithmetic. */
  lemma TurnAgrees(p: Point, from: Point, to: Point)
    requires TermsFit(Abs(to.x - from.x), Abs(to.y - from.y), Offset(p, from, to))
    ensures Turn32(PenAt(p, from, to), from, to) == PenAt(NextPixel(p, from, to), from, to)
  {
    hide Wrap32, Offset, Sign;
    var dx: int, dy: int := Abs(to.x - from.x), Abs(to.y - from.y);
    var err := Offset(p, from, to) + dx - dy;
    var i, j := StepX(dy, err), StepY(dx, err);
    WrapFits(2 * err);
    if i == 1 { WrapFits(err - dy); }
    WrapFits(err - i * dy + j * dx);
    NextOffset(p, from, to, i, j);
  }

  lemma NextOffset(p: Point, from: Point, to: Point, i: int, j: int)
    ensures var q := Point(p.x + i * Sign(from.x, to.x), p.y + j * Sign(from.y, to.y));
            && StepsX(q, from, to) == StepsX(p, from, to) + i && StepsY(q, from, to) == StepsY(p, from, to) + j
            && Offset(q, from, to) == Offset(p, from, to) - i * Abs(to.y - from.y) + j * Abs(to.x - from.x)
  {
    var q := Point(p.x + i * Sign(from.x, to.x), p.y + j * Sign(from.y, to.y));
    assert StepsX(q, from, to) == StepsX(p, from, to) + i;
    assert StepsY(q, from, to) == StepsY(p, from, to) + j;
    NextDeviation(Abs(to.x - from.x), Abs(to.y - from.y), StepsX(p, from, to), StepsY(p, from, to), i, j);
  }

  /** From every pixel but the last the line goes on to the next. */
  lemma NextOnLine(p: Point, from: Point, to: Point, i: int)
    requires OnLine(p, from, to, i) && p != to
    ensures OnLine(NextPixel(p, from, to), from, to, i + 1) && Follows(p, NextPixel(p, from, to), from, to)
    ensures i + 1 <= Max(Abs(to.x - from.x), Abs(to.y - from.y))
  {
    hide Balanced, Follows, Offset, StepsX, StepsY, Sign;
    var dx, dy := Abs(to.x - from.x), Abs(to.y - from.y);
    var a, b, d := StepsX(p, from, to), StepsY(p, from, to), Offset(p, from, to);
    AtEnd(p, from, to);
    StepKeepsBalance(dx, dy, a, b, d);
    var sx, sy := StepX(dy, d + dx - dy), StepY(dx, d + dx - dy);
    NextOffset(p, from, to, sx, sy);
    BalancedRange(dx, dy, a + sx, b + sy, d - sx * dy + sy * dx);
    StepFollows(p, from, to, sx, sy);
  }

  lemma StepFollows(p: Point, from: Point, to: Point, i: int, j: int)
    requires 0 <= i <= 1 && 0 <= j <= 1 && (if Abs(to.x - from.x) >= Abs(to.y - from.y) then i == 1 else j == 1)
    ensures Follows(p, Point(p.x + i * Sign(from.x, to.x), p.y + j * Sign(from.y, to.y)), from, to)
  {
  }

  lemma AtEnd(p: Point, from: Point, to: Point)
    ensures p == to <==> StepsX(p, from, to) == Abs(to.x - from.x) && StepsY(p, from, to) == Abs(to.y - from.y)
  {
  }

  lemma BalancedRange(dx: int, dy: int, a: int, b: int, d: int)
    requires Balanced(dx, dy, a, b, d)
    ensures 0 <= a <= dx && 0 <= b <= dy
  {
  }

  /** The last pixel comes after as many steps as the longer side is long. */
  lemma LastIndex(p: Point, from: Point, to: Point, i: int)
    requires OnLine(p, from, to, i)
    ensures p == to <==> i == Max(Abs(to.x - from.x), Abs(to.y - from.y))
    ensures Nearest(p, from, to)
  {
    AtEnd(p, from, to);
    EndTogether(Abs(to.x - from.x), Abs(to.y - from.y), StepsX(p, from, to), StepsY(p, from, to), Offset(p, from, to));
  }

  lemma StartOnLine(from: Point, to: Point)
    ensures OnLine(from, from, to, 0) && Offset(from, from, to) == 0
  {
  }

  /** The pixels put, in order, by the loop in exact arithmetic. The machine's turns
      are these exactly as long as none overflows, for which FitsInt32 is the condition. */
  method DrawLine(from: Point, to: Point) returns (pixels: seq<Point>)
    ensures |pixels| == Max(Abs(to.x - from.x), Abs(to.y - from.y)) + 1
    ensures pixels[0] == from && pixels[|pixels| - 1] == to
    ensures forall i :: 0 <= i < |pixels| ==> Nearest(pixels[i], from, to)
    ensures forall i :: 0 < i < |pixels| ==> Follows(pixels[i - 1], pixels[i], from, to)
    ensures AllFit(pixels, from, to) <==> FitsInt32(Abs(to.x - from.x), Abs(to.y - from.y))
    ensures FitsInt32(Abs(to.x - from.x), Abs(to.y - from.y)) ==>
              forall i :: 0 < i < |pixels| ==>
                Turn32(PenAt(pixels[i - 1], from, to), from, to) == PenAt(pixels[i], from, to)
  {
    hide Balanced, Nearest, Follows, Sign, OnLine, Offset, AllFit, FitsInt32, Turn32;
    var dx: int, dy: int := Abs(to.x - from.x), Abs(to.y - from.y);
    var sx, sy := Sign(from.x, to.x), Sign(from.y, to.y);
    var err := dx - dy;
    var x, y := from.x, from.y;
    StartOnLine(from, to);
    pixels := [Point(x, y)];
    LastIndex(from, from, to, 0);
    while !(x == to.x && y == to.y)
      invariant 1 <= |pixels| <= Max(dx, dy) + 1 && pixels[0] == from && pixels[|pixels| - 1] == Point(x, y)
      invariant forall i :: 0 <= i < |pixels| ==> OnLine(pixels[i], from, to, i)
      invariant forall i :: 0 < i < |pixels| ==> pixels[i] == NextPixel(pixels[i - 1], from, to)
      invariant err == Offset(Point(x, y), from, to) + dx - dy
      decreases Max(dx, dy) - |pixels|
    {
      ghost var p := Point(x, y);
      NextOnLine(p, from, to, |pixels| - 1);
      var e2 := 2 * err;
      ghost var i, j := StepX(dy, err), StepY(dx, err);
      NextOffset(p, from, to, i, j);
      if e2 > -dy {
        err := err - dy;
        x := x + sx;
      }
      if e2 < dx {
        err := err + dx;
        y := y + sy;
      }
      pixels := pixels + [Point(x, y)];
    }
    LineIsDrawn(pixels, from, to);
  }

  lemma LineIsDrawn(pixels: seq<Point>, from: Point, to: Point)
    requires |pixels| >= 1 && pixels[|pixels| - 1] == to
    requires forall i :: 0 <= i < |pixels| ==> OnLine(pixels[i], from, to, i)
    requires forall i :: 0 < i < |pixels| ==> pixels[i] == NextPixel(pixels[i - 1], from, to)
    ensures |pixels| == Max(Abs(to.x - from.x), Abs(to.y - from.y)) + 1
    ensures forall i :: 0 <= i < |pixels| ==> Nearest(pixels[i], from, to)
    ensures forall i :: 0 < i < |pixels| ==> Follows(pixels[i - 1], pixels[i], from, to)
    ensures AllFit(pixels, from, to) <==> FitsInt32(Abs(to.x - from.x), Abs(to.y - from.y))
    ensures AllFit(pixels, from, to) ==>
              forall i :: 0 < i < |pixels| ==>
                Turn32(PenAt(pixels[i - 1], from, to), from, to) == PenAt(pixels[i], from, to)
  {
    hide Balanced, Nearest, Follows, Sign, OnLine, Offset, FitsInt32, Turn32, PenAt, TermsFit, NextPixel;
    LastIndex(to, from, to, |pixels| - 1);
    forall i | 0 <= i < |pixels| ensures Nearest(pixels[i], from, to) {
      LastIndex(pixels[i], from, to, i);
    }
    forall i | 0 < i < |pixels| ensures Follows(pixels[i - 1], pixels[i], from, to) {
      LastIndex(pixels[i - 1], from, to, i - 1);
      NextOnLine(pixels[i - 1], from, to, i - 1);
    }
    FitIsExact(pixels, from, to);
    if AllFit(pixels, from, to) {
      forall i | 0 < i < |pixels|
        ensures Turn32(PenAt(pixels[i - 1], from, to), from, to) == PenAt(pixels[i], from, to)
      {
        TurnAgrees(pixels[i - 1], from, to);
      }
    }
  }

  // ----- how long a line may be

  /** Every line up to 715827882 pixels long fits. */
  lemma ShortLinesFit(dx: nat, dy: nat)
    requires dx <= 715_827_882 && dy <= 715_827_882
    ensures FitsInt32(dx, dy)
  {
    if dx > 0 || dy > 0 {
      GcdDivides(dy, dx);
      GcdDivides(dx, dy);
      if dx >= dy {
        WindowEnds(dx, Gcd(dy, dx));
      } else {
        WindowEnds(dy, Gcd(dx, dy));
        if dx > 0 { FirstXStepInside(dx, dy, Gcd(dx, dy), (dy - 2 * dx) / (2 * Gcd(dx, dy)) + 1); }
      }
    }
  }

  /** A horizontal line fits exactly below 2^30, a vertical one exactly up to 2^30. */
  lemma AxisLimit(n: nat)
    ensures FitsInt32(n, 0) <==> n < 0x4000_0000
    ensures FitsInt32(0, n) <==> n <= 0x4000_0000
  {
    assert Gcd(0, n) == n;
    if n > 0 { DivisionOf(n, 1); }
  }

  /** On every longer horizontal line, from (0, 0) to (2^30, 0) on, the doubled error
      wraps and the first turn leaves the axis without a step along it. */
  lemma LongLineLeaves(n: int)
    requires 0x4000_0000 <= n <= INT_MAX
    ensures var from, to := Point(0, 0), Point(n, 0);
            Turn32(PenAt(from, from, to), from, to) == Pen(0, -1, 2 * n - 0x1_0000_0000)
  {
    hide Wrap32, Offset;
    StartOnLine(Point(0, 0), Point(n, 0));
    WrapHigh(2 * n);
  }

  lemma WrapHigh(m: int)
    requires INT_MAX < m <= 2 * INT_MAX
    ensures Wrap32(m) == m - 0x1_0000_0000
  {
  }
}
