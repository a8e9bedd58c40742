// The line drawing loop of the display driver, in 16-bit arithmetic.
module LcdLine {
  import opened Words

  type u16 = x: int | 0 <= x < 0x1_0000

  function Int16(x: int): int { (x + 0x8000) % 0x1_0000 - 0x8000 }

  function U16(x: int): u16 { x % 0x1_0000 }

  lemma Int16Exact(x: int)
    requires -0x8000 <= x < 0x8000
    ensures Int16(x) == x
  {
  }

  /** The largest coordinate difference for which no intermediate value overflows. */
  const LIMIT := 10923

  /** The minor coordinate nearest to the ideal line after k steps on the major axis; of two
      equally near ones the one nearer to the start. */
  function Nearest(k: nat, minor: nat, major: nat): int {
    if major == 0 then 0 else (2 * (k * minor) + major - 1) / (2 * major)
  }

  /** The error of the minor coordinate m after k steps, in units of 1/major of a pixel. */
  function Error(k: nat, m: int, minor: nat, major: nat): int { k * minor - m * major }

  /** At most half a pixel off, and half a pixel only on the side of the start. */
  predicate Near(k: nat, m: int, minor: nat, major: nat) {
    -(major as int) < 2 * Error(k, m, minor, major) <= major
  }

  /** Exactly one pixel in each step is that near. */
  lemma NearestIff(k: nat, m: int, minor: nat, major: nat)
    requires major > 0
    ensures Near(k, m, minor, major) <==> m == Nearest(k, minor, major)
  {
    var a, n, q := 2 * (k * minor) + major - 1, 2 * major, Nearest(k, minor, major);
    assert a == q * n + a % n;
    assert q * n == 2 * (q * major) && m * n == 2 * (m * major);
    if Near(k, m, minor, major) {
      DivModUnique(a, n, m, a - m * n);
    }
  }

  /** The line starts at zero, ends at the other end, and moves by at most one pixel a step. */
  lemma NearestRuns(k: nat, minor: nat, major: nat)
    requires 0 < major && minor <= major && k <= major
    ensures Nearest(0, minor, major) == 0 && Nearest(major, minor, major) == minor
    ensures 0 <= Nearest(k, minor, major) <= minor
    ensures k < major ==> Nearest(k, minor, major) <= Nearest(k + 1, minor, major) <= Nearest(k, minor, major) + 1
  {
    hide Nearest;
    NearestIff(0, 0, minor, major);
    NearestIff(major, minor, minor, major);
    var m := Nearest(k, minor, major);
    NearestIff(k, m, minor, major);
    InRange(k, m, minor, major);
    if k < major {
      Advance(k, m, minor, major);
    }
  }

  lemma InRange(k: nat, m: int, minor: nat, major: nat)
    requires 0 < major && k <= major && Near(k, m, minor, major)
    ensures 0 <= m <= minor
    ensures k == major ==> m == minor
  {
    Times(0, minor, k);
    Times(k, major, minor);
    Times(m, -1, major);
    Times(minor + 1, m, major);
    Times(m, minor - 1, major);
    assert (minor + 1) * major == minor * major + major && (minor - 1) * major == minor * major - major;
  }

  lemma Times(a: int, b: int, c: nat)
    ensures a <= b ==> a * c <= b * c
  {
  }

  /** The decision of the loop: the minor coordinate steps exactly when the error would exceed half
      a pixel, and either way the next pixel is the nearest. */
  lemma Advance(k: nat, m: int, minor: nat, major: nat)
    requires 0 < major && minor <= major && Near(k, m, minor, major)
    ensures Error(k + 1, m, minor, major) == Error(k, m, minor, major) + minor
    ensures Error(k + 1, m + 1, minor, major) == Error(k, m, minor, major) + minor - major
    ensures var next := if 2 * (Error(k, m, minor, major) + minor) > major then m + 1 else m;
            Near(k + 1, next, minor, major) && Nearest(k + 1, minor, major) == next
  {
    hide Nearest;
    assert (k + 1) * minor == k * minor + minor;
    assert (m + 1) * major == m * major + major;
    var next := if 2 * (Error(k, m, minor, major) + minor) > major then m + 1 else m;
    NearestIff(k + 1, next, minor, major);
  }

  // ---- no overflow ----

  /** The doubled error term e2 of the loop after i steps in x and j in y. */
  function DoubledError(dx: nat, dy: nat, i: int, j: int): int { 2 * (dx - dy - (i * dy - j * dx)) }

  /** e2 fits in 16 bits at every step of the line. */
  ghost predicate Fits(dx: nat, dy: nat) {
    if dx >= dy then
      forall k: nat :: k < dx ==> -0x8000 <= DoubledError(dx, dy, k, Nearest(k, dy, dx)) < 0x8000
    else
      forall k: nat :: k < dy ==> -0x8000 <= DoubledError(dx, dy, Nearest(k, dx, dy), k) < 0x8000
  }

  lemma FitsBelowLimit(dx: nat, dy: nat)
    requires dx <= LIMIT && dy <= LIMIT
    ensures Fits(dx, dy)
  {
    hide Nearest;
    if dx >= dy {
      forall k: nat | k < dx
        ensures -0x8000 <= DoubledError(dx, dy, k, Nearest(k, dy, dx)) < 0x8000
      {
        NearestIff(k, Nearest(k, dy, dx), dy, dx);
        if dy == 0 {
          NearestRuns(k, 0, dx);
        }
      }
    } else {
      forall k: nat | k < dy
        ensures -0x8000 <= DoubledError(dx, dy, Nearest(k, dx, dy), k) < 0x8000
      {
        NearestIff(k, Nearest(k, dx, dy), dx, dy);
        if dx == 0 {
          NearestRuns(k, 0, dy);
        }
      }
    }
  }

  /** Every line with differences up to a bound fits exactly when the bound is at most the limit:
      one pixel more, and the line from (0, 0) to (10924, 1) overflows in the middle. */
  lemma NoOverflowIff(bound: nat)
    ensures (forall dx: nat, dy: nat :: dx <= bound && dy <= bound ==> Fits(dx, dy)) <==> bound <= 10923
  {
    hide Fits;
    if bound <= LIMIT {
      forall dx: nat, dy: nat | dx <= bound && dy <= bound
        ensures Fits(dx, dy)
      {
        FitsBelowLimit(dx, dy);
      }
    } else {
      JustTooLong();
    }
  }

  // ---- which line fits ----

  function Gcd(a: nat, b: nat): nat
    decreases b
  {
    if b == 0 then a else Gcd(b, a % b)
  }

  lemma {:induction false} Bezout(a: nat, b: nat) returns (x: int, y: int)
    ensures x * a + y * b == Gcd(a, b)
    decreases b
  {
    if b == 0 {
      x, y := 1, 0;
    } else {
      var u, v := Bezout(b, a % b);
      x, y := v, u - v * (a / b);
      Quotient(a, b);
      BackSubstitute(a, b, a / b, a % b, u, v);
    }
  }

  lemma BackSubstitute(a: int, b: int, q: int, r: int, u: int, v: int)
    requires a == q * b + r
    ensures v * a + (u - v * q) * b == u * b + v * r
  {
    assert v * (q * b + r) == v * (q * b) + v * r;
    assert v * (q * b) == (v * q) * b;
    assert (u - v * q) * b == u * b - (v * q) * b;
  }

  lemma {:induction false} GcdDivides(a: nat, b: nat) returns (p: nat, q: nat)
    requires a > 0
    ensures Gcd(a, b) > 0 && a == p * Gcd(a, b) && b == q * Gcd(a, b)
    decreases b
  {
    if b == 0 {
      p, q := 1, 0;
    } else {
      var u, v := GcdDivides(b, a % b);
      GcdStep(a, b);
      hide *;
      Quotient(a, b);
      Combined(a / b, u, v, Gcd(a, b));
      p, q := a / b * u + v, u;
    }
  }

  lemma GcdStep(a: nat, b: nat)
    requires b > 0
    ensures Gcd(a, b) == Gcd(b, a % b)
  {
  }

  lemma Combined(d: nat, u: nat, v: nat, g: nat)
    ensures d * u + v >= 0 && (d * u + v) * g == d * (u * g) + v * g
  {
    assert (d * u) * g == d * (u * g);
  }

  lemma Quotient(x: int, c: nat)
    requires c > 0
    ensures x == x / c * c + x % c && 0 <= x % c < c
    ensures x >= 0 ==> x / c >= 0
  {
  }

  /** The greatest error the nearest pixels of a line reach on the far side, in units of 1/major of
      a pixel: the errors are the multiples of the greatest common divisor. */
  function FarthestError(minor: nat, major: nat): int
    requires major > 0 && Gcd(major, minor) > 0
  {
    var g := Gcd(major, minor);
    (major / g - 1) / 2 * g
  }

  lemma FarthestIs(minor: nat, major: nat) returns (n: nat, h: nat)
    requires major > 0
    ensures var g := Gcd(major, minor);
            && g > 0 && major == n * g && n > 0 && major / g == n && n - 2 <= 2 * h <= n - 1
            && FarthestError(minor, major) == h * g && 0 <= 2 * (h * g) < major
            && 2 * (h * g) == major - (if n % 2 == 1 then g else 2 * g)
  {
    var p, q := GcdDivides(major, minor);
    var g := Gcd(major, minor);
    n := p;
    DivModUnique(major, g, p, 0);
    h := (n - 1) / 2;
    HalfOf(n, h, g);
    Times(0, h, g);
  }

  lemma HalfOf(n: nat, h: nat, g: nat)
    requires n > 0 && h == (n - 1) / 2
    ensures n == (if n % 2 == 1 then 2 * h + 1 else 2 * h + 2)
    ensures n * g == 2 * (h * g) + (if n % 2 == 1 then g else 2 * g)
  {
    assert (2 * h + 1) * g == 2 * (h * g) + g;
    assert (2 * h + 2) * g == 2 * (h * g) + 2 * g;
  }

  /** No pixel is farther off than that. */
  lemma NoneIsFarther(k: nat, m: int, minor: nat, major: nat)
    requires major > 0 && Near(k, m, minor, major)
    ensures Gcd(major, minor) > 0 && -FarthestError(minor, major) <= Error(k, m, minor, major)
  {
    hide FarthestError;
    var n, h := FarthestIs(minor, major);
    var p, q := GcdDivides(major, minor);
    var g := Gcd(major, minor);
    SameFactor(n, p, g);
    CommonFactor(k, m, p, q, g);
    NotBelow(n, h, k * q - m * p, g);
  }

  lemma CommonFactor(k: int, m: int, p: int, q: int, g: int)
    ensures k * (q * g) - m * (p * g) == (k * q - m * p) * g
  {
    assert k * (q * g) == (k * q) * g;
    assert m * (p * g) == (m * p) * g;
  }

  lemma NotBelow(n: int, h: int, r: int, g: nat)
    requires g > 0 && n - 2 <= 2 * h <= n - 1 && -(n * g) < 2 * (r * g)
    ensures -(h * g) <= r * g
  {
    assert (2 * r) * g == 2 * (r * g) && (-n) * g == -(n * g) && (-h) * g == -(h * g);
    Times(2 * r, -n, g);
    Times(-h, r, g);
  }

  lemma SameFactor(a: nat, b: nat, g: nat)
    requires g > 0 && a * g == b * g
    ensures a == b
  {
    DivModUnique(a * g, g, a, 0);
    DivModUnique(b * g, g, b, 0);
  }

  /** And some pixel before the end is that far off. */
  lemma SomeIsFarthest(minor: nat, major: nat) returns (k: nat, m: int)
    requires major > 0
    ensures Gcd(major, minor) > 0 && k < major && Near(k, m, minor, major)
    ensures Error(k, m, minor, major) == -FarthestError(minor, major)
  {
    hide FarthestError;
    var n, h := FarthestIs(minor, major);
    var x, y := Bezout(major, minor);
    var g := Gcd(major, minor);
    var k0, m0 := -(h * y), h * x;
    Scaled(x, y, major, minor, h);
    Quotient(k0, major);
    k := k0 % major;
    var t := k0 / major;
    m := m0 - t * minor;
    Reduced(k0, m0, t, k, minor, major);
  }

  lemma Scaled(x: int, y: int, a: int, b: int, h: int)
    ensures -(h * y) * b - (h * x) * a == -(h * (x * a + y * b))
  {
    assert h * (x * a + y * b) == h * (x * a) + h * (y * b);
    assert h * (x * a) == (h * x) * a;
    assert h * (y * b) == (h * y) * b;
    assert -(h * y) * b == -((h * y) * b);
  }

  lemma Reduced(k0: int, m0: int, t: int, k: int, minor: int, major: int)
    requires k0 == t * major + k
    ensures k * minor - (m0 - t * minor) * major == k0 * minor - m0 * major
  {
    assert (t * major + k) * minor == (t * major) * minor + k * minor;
    assert (m0 - t * minor) * major == m0 * major - (t * minor) * major;
    assert (t * major) * minor == (t * minor) * major;
  }

  /** What a caller can check before drawing a line with differences dx and dy: three times the
      longer less twice the shorter, less their greatest common divisor (twice it, if it goes an
      even number of times into the longer). */
  predicate Drawable(dx: nat, dy: nat) {
    && dx <= 0x7FFF && dy <= 0x7FFF
    && (dx == dy == 0 || Extent(Max(dx, dy), Min(dx, dy)) <= (if dx >= dy then 0x7FFF else 0x8000))
  }

  function Extent(major: nat, minor: nat): int
    requires major > 0
  {
    var g := Gcd(major, minor);
    3 * major - 2 * minor - (if g > 0 && major / g % 2 == 1 then g else 2 * g)
  }

  lemma ExtentIs(major: nat, minor: nat)
    requires major > 0
    ensures Gcd(major, minor) > 0 && Extent(major, minor) == 2 * major - 2 * minor + 2 * FarthestError(minor, major)
    ensures 0 <= 2 * FarthestError(minor, major) < major
  {
    hide FarthestError;
    var n, h := FarthestIs(minor, major);
  }

  /** Line by line: e2 fits in 16 bits at every step exactly if the line is drawable. */
  lemma FitsIff(dx: nat, dy: nat)
    requires dx <= 0x7FFF && dy <= 0x7FFF
    ensures Fits(dx, dy) <==> Drawable(dx, dy)
  {
    hide Nearest, Error, Near, FarthestError, Extent;
    if dx >= dy && dx > 0 {
      ExtentIs(dx, dy);
      forall k: nat | k < dx
        ensures -0x8000 <= DoubledError(dx, dy, k, Nearest(k, dy, dx)) <= 2 * dx - 2 * dy + 2 * FarthestError(dy, dx)
      {
        var m := Nearest(k, dy, dx);
        NearestIff(k, m, dy, dx);
        NearIs(k, m, dy, dx);
        NoneIsFarther(k, m, dy, dx);
        NearestRuns(k, dy, dx);
        ErrorIs(dx, dy, k, m);
      }
      var k, m := SomeIsFarthest(dy, dx);
      NearestIff(k, m, dy, dx);
      NearestRuns(k, dy, dx);
      ErrorIs(dx, dy, k, m);
      assert DoubledError(dx, dy, k, Nearest(k, dy, dx)) == Extent(dx, dy);
    } else if dy > dx {
      ExtentIs(dy, dx);
      forall k: nat | k < dy
        ensures 2 * dx - 2 * dy - 2 * FarthestError(dx, dy) <= DoubledError(dx, dy, Nearest(k, dx, dy), k) < 0x8000
      {
        var m := Nearest(k, dx, dy);
        NearestIff(k, m, dx, dy);
        NearIs(k, m, dx, dy);
        NoneIsFarther(k, m, dx, dy);
        NearestRuns(k, dx, dy);
        ErrorIs(dx, dy, m, k);
      }
      var k, m := SomeIsFarthest(dx, dy);
      NearestIff(k, m, dx, dy);
      NearestRuns(k, dx, dy);
      ErrorIs(dx, dy, m, k);
      assert DoubledError(dx, dy, Nearest(k, dx, dy), k) == -Extent(dy, dx);
    }
  }

  lemma DrawableFits(dx: nat, dy: nat)
    requires Drawable(dx, dy)
    ensures Fits(dx, dy) && dx <= 0x7FFF && dy <= 0x7FFF
  {
    hide Fits, Extent;
    FitsIff(dx, dy);
  }

  /** Where e2 does not fit, the value it wraps to makes the loop take another step than the true
      value would: the first overflow leaves the line. */
  lemma OverflowMisleads(dx: nat, dy: nat, i: int, j: int)
    requires dx <= 0x7FFF && dy <= 0x7FFF
    requires if dx >= dy then 0 <= i < dx && j == Nearest(i, dy, dx) else 0 <= j < dy && i == Nearest(j, dx, dy)
    requires !(-0x8000 <= DoubledError(dx, dy, i, j) < 0x8000)
    ensures var e2 := DoubledError(dx, dy, i, j);
            (Int16(e2) > -(dy as int), Int16(e2) < dx) != (e2 > -(dy as int), e2 < dx)
  {
    hide Nearest, Error, Near, Int16;
    var e2 := DoubledError(dx, dy, i, j);
    if dx >= dy {
      NearestIff(i, j, dy, dx);
      NearIs(i, j, dy, dx);
      NearestRuns(i, dy, dx);
      ErrorIs(dx, dy, i, j);
      Int16Down(e2);
    } else {
      NearestIff(j, i, dx, dy);
      NearIs(j, i, dx, dy);
      NearestRuns(j, dx, dy);
      ErrorIs(dx, dy, i, j);
      Int16Up(e2);
    }
  }

  lemma Int16Down(x: int)
    requires 0x8000 <= x < 0x1_8000
    ensures Int16(x) == x - 0x1_0000
  {
  }

  lemma Int16Up(x: int)
    requires -0x1_8000 <= x < -0x8000
    ensures Int16(x) == x + 0x1_0000
  {
  }

  lemma JustTooLong()
    ensures !Fits(LIMIT + 1, 1)
  {
    hide Nearest;
    NearestIff(5463, 1, 1, LIMIT + 1);
    assert DoubledError(LIMIT + 1, 1, 5463, Nearest(5463, 1, LIMIT + 1)) == 0x8000;
  }

  // ---- the loop ----

  function Difference(a: int, b: int): nat { if b > a then b - a else a - b }

  lemma DifferenceIs(a: int, b: int)
    ensures Difference(a, b) == if b > a then b - a else a - b
  {
  }

  /** n pixels from a towards b. */
  function Toward(a: int, b: int, n: int): int { if a < b then a + n else a - n }

  /** The k-th pixel of the ideal line. */
  function PixelAt(x1: int, y1: int, x2: int, y2: int, k: nat): (int, int) {
    var dx, dy := Difference(x1, x2), Difference(y1, y2);
    if dx >= dy then (Toward(x1, x2, k), Toward(y1, y2, Nearest(k, dy, dx)))
    else (Toward(x1, x2, Nearest(k, dx, dy)), Toward(y1, y2, k))
  }

  /** Where two pixels are equally near, the one drawn is the one nearer to the start; a line drawn
      backwards can take the others. */
  lemma HalfwayPixels()
    ensures PixelAt(0, 0, 2, 1, 1) == (1, 0) && PixelAt(2, 1, 0, 0, 1) == (1, 1)
    ensures PixelAt(0, 0, 1, 2, 1) == (0, 1) && PixelAt(1, 2, 0, 0, 1) == (1, 1)
    ensures PixelAt(5, 5, 1, 9, 3) == (2, 8) && PixelAt(0, 7, 4, 7, 3) == (3, 7)
  {
  }

  ghost predicate Drawn(x1: int, y1: int, x2: int, y2: int, pixels: seq<(int, int)>) {
    forall k :: 0 <= k < |pixels| ==> pixels[k] == PixelAt(x1, y1, x2, y2, k)
  }

  lemma OneMorePixel(x1: int, y1: int, x2: int, y2: int, pixels: seq<(int, int)>, p: (int, int))
    requires Drawn(x1, y1, x2, y2, pixels) && p == PixelAt(x1, y1, x2, y2, |pixels|)
    ensures Drawn(x1, y1, x2, y2, pixels + [p])
  {
    hide PixelAt;
  }

  lemma NothingDrawn(x1: int, y1: int, x2: int, y2: int)
    ensures Drawn(x1, y1, x2, y2, []) && Max(0, 0) == 0
  {
  }

  /** lcd_draw_line.  The result is the sequence of pixels drawn: exactly one for each step of the
      longer axis and the nearest one each time, from the first end to the other. */
  method DrawLine(x1: u16, y1: u16, x2: u16, y2: u16) returns (pixels: seq<(int, int)>)
    requires Drawable(Difference(x1, x2), Difference(y1, y2))
    ensures |pixels| == Max(Difference(x1, x2), Difference(y1, y2)) + 1
    ensures pixels[0] == (x1 as int, y1 as int) && pixels[|pixels| - 1] == (x2 as int, y2 as int)
    ensures forall k :: 0 <= k < |pixels| ==> pixels[k] == PixelAt(x1, y1, x2, y2, k)
  {
    DrawableFits(Difference(x1, x2), Difference(y1, y2));
    hide *;
    DifferenceIs(x1, x2);
    DifferenceIs(y1, y2);
    Int16Exact(Difference(x1, x2));
    Int16Exact(Difference(y1, y2));
    var dx := Int16(if x2 > x1 then x2 - x1 else x1 - x2);
    var dy := Int16(if y2 > y1 then y2 - y1 else y1 - y2);
    Int16Exact(dx - dy);
    var sx := if x1 < x2 then 1 else -1;
    var sy := if y1 < y2 then 1 else -1;
    var err := Int16(dx - dy);
    var x: int, y: int := x1, y1;
    pixels := [];
    ghost var i, j: int := 0, 0;
    Starts(dx, dy);
    NothingDrawn(x1, y1, x2, y2);
    PixelIs(x1, y1, x2, y2, 0, 0, err);
    while true
      invariant OnLine(dx, dy, i, j, err) && |pixels| == Max(i, j)
      invariant x == Toward(x1, x2, i) && y == Toward(y1, y2, j)
      invariant Drawn(x1, y1, x2, y2, pixels)
      decreases Max(dx, dy) - Max(i, j)
    {
      OnLineIs(dx, dy, i, j, err);
      PixelIs(x1, y1, x2, y2, i, j, err);
      OneMorePixel(x1, y1, x2, y2, pixels, (x, y));
      pixels := pixels + [(x, y)];
      if x == x2 && y == y2 {
        break;
      }
      x, y, err, i, j := NextPixel(dx, dy, sx, sy, x, y, err, x1, y1, x2, y2, i, j);
      OnLineIs(dx, dy, i, j, err);
    }
    Ends(x1, y1, x2, y2, pixels);
  }

  // The updates at the end of the loop.
  method NextPixel(dx: int, dy: int, sx: int, sy: int, x: int, y: int, err: int,
                   ghost x1: u16, ghost y1: u16, ghost x2: u16, ghost y2: u16, ghost i: int, ghost j: int)
    returns (nextX: int, nextY: int, nextErr: int, ghost nextI: int, ghost nextJ: int)
    requires dx == Difference(x1, x2) && dy == Difference(y1, y2) && Fits(dx, dy)
    requires sx == (if x1 < x2 then 1 else -1) && sy == (if y1 < y2 then 1 else -1)
    requires OnLine(dx, dy, i, j, err) && !(i == dx && j == dy)
    requires x == Toward(x1, x2, i) && y == Toward(y1, y2, j)
    ensures OnLine(dx, dy, nextI, nextJ, nextErr) && Max(nextI, nextJ) == Max(i, j) + 1
    ensures nextX == Toward(x1, x2, nextI) && nextY == Toward(y1, y2, nextJ)
  {
    hide Int16, OnLine, Toward, Fits, U16;
    OnLineIs(dx, dy, i, j, err);
    StepOnLine(dx, dy, i, j, err);
    Moves(x1, x2, i);
    Moves(y1, y2, j);
    nextX, nextY, nextErr, nextI, nextJ := x, y, err, i, j;
    var e2 := Int16(err * 2);
    if e2 > -dy {
      nextErr := Int16(nextErr - dy);
      nextX := U16(nextX + sx);
      nextI := i + 1;
    }
    if e2 < dx {
      nextErr := Int16(nextErr + dx);
      nextY := U16(nextY + sy);
      nextJ := j + 1;
    }
    OnLineIs(dx, dy, nextI, nextJ, nextErr);
  }

  lemma Ends(x1: u16, y1: u16, x2: u16, y2: u16, pixels: seq<(int, int)>)
    requires Drawn(x1, y1, x2, y2, pixels) && pixels != []
    ensures forall k :: 0 <= k < |pixels| ==> pixels[k] == PixelAt(x1, y1, x2, y2, k)
    ensures pixels[0] == (x1 as int, y1 as int)
  {
    hide Nearest;
    var dx, dy := Difference(x1, x2), Difference(y1, y2);
    if dx >= dy && dx > 0 {
      NearestRuns(0, dy, dx);
    } else if dy > dx {
      NearestRuns(0, dx, dy);
    } else {
      NothingToDraw();
    }
    assert pixels[0] == PixelAt(x1, y1, x2, y2, 0);
  }

  /** i and j steps have been taken, the pixel is the nearest one, and err says by how much. */
  ghost predicate OnLine(dx: nat, dy: nat, i: int, j: int, err: int) {
    && 0 <= i <= dx <= 0x7FFF && 0 <= j <= dy <= 0x7FFF
    && 2 * err == DoubledError(dx, dy, i, j)
    && if dx >= dy then j == Nearest(i, dy, dx) else i == Nearest(j, dx, dy)
  }

  lemma PixelIs(x1: u16, y1: u16, x2: u16, y2: u16, i: int, j: int, err: int)
    requires OnLine(Difference(x1, x2), Difference(y1, y2), i, j, err)
    ensures PixelAt(x1, y1, x2, y2, Max(i, j)) == (Toward(x1, x2, i), Toward(y1, y2, j))
    ensures Toward(x1, x2, i) == x2 && Toward(y1, y2, j) == y2 <==> i == Difference(x1, x2) && j == Difference(y1, y2)
    ensures Toward(x1, x2, 0) == x1 && Toward(y1, y2, 0) == y1
  {
    hide Nearest, DoubledError;
    OnLineIs(Difference(x1, x2), Difference(y1, y2), i, j, err);
  }

  lemma Moves(a: u16, b: u16, n: int)
    ensures 0 <= n < Difference(a, b) ==> U16(Toward(a, b, n) + (if a < b then 1 else -1)) == Toward(a, b, n + 1)
  {
  }

  lemma Starts(dx: nat, dy: nat)
    requires dx <= 0x7FFF && dy <= 0x7FFF
    ensures OnLine(dx, dy, 0, 0, dx - dy)
  {
    hide Nearest;
    if dx >= dy && dx > 0 {
      NearestRuns(0, dy, dx);
    } else if dy > dx {
      NearestRuns(0, dx, dy);
    } else {
      NothingToDraw();
    }
  }

  lemma NothingToDraw()
    ensures Nearest(0, 0, 0) == 0
  {
  }

  lemma OnLineIs(dx: nat, dy: nat, i: int, j: int, err: int)
    requires OnLine(dx, dy, i, j, err)
    ensures if dx >= dy then Max(i, j) == i && j == Nearest(i, dy, dx) else Max(i, j) == j && i == Nearest(j, dx, dy)
    ensures 0 <= i <= dx && 0 <= j <= dy
    ensures Max(i, j) <= Max(dx, dy)
    ensures Max(i, j) == Max(dx, dy) ==> i == dx && j == dy
  {
    hide Nearest, DoubledError;
    if dx >= dy && dx > 0 {
      NearestIff(i, j, dy, dx);
      InRange(i, j, dy, dx);
      NotAhead(i, j, dy, dx);
    } else if dy > dx {
      NearestIff(j, i, dx, dy);
      InRange(j, i, dx, dy);
      NotAhead(j, i, dx, dy);
    }
  }

  // The minor axis is never ahead of the major one.
  lemma NotAhead(k: nat, m: int, minor: nat, major: nat)
    requires 0 < major && minor <= major && Near(k, m, minor, major)
    ensures m <= k
  {
    Times(k + 1, m, major);
    assert (k + 1) * major == k * major + major;
    Times(minor, major, k);
  }

  /** One round of the loop before the end: e2 does not wrap, and if err does on the way it comes
      back; the next pixel is the nearest. */
  lemma StepOnLine(dx: nat, dy: nat, i: int, j: int, err: int)
    requires OnLine(dx, dy, i, j, err) && !(i == dx && j == dy) && Fits(dx, dy)
    ensures Int16(err * 2) == err * 2
    ensures var right, down := err * 2 > -(dy as int), err * 2 < dx;
            && (right && down ==> OnLine(dx, dy, i + 1, j + 1, Int16(Int16(err - dy) + dx)))
            && (right && !down ==> OnLine(dx, dy, i + 1, j, Int16(err - dy)))
            && (!right && down ==> OnLine(dx, dy, i, j + 1, Int16(err + dx)))
            && (if dx >= dy then right else down)
            && (right ==> i < dx) && (down ==> j < dy)
  {
    hide Nearest, Int16, Near, Error, DoubledError;
    OnLineIs(dx, dy, i, j, err);
    ErrorIs(dx, dy, i, j);
    if dx >= dy {
      assert -0x8000 <= DoubledError(dx, dy, i, j) < 0x8000;
      var down := err * 2 < dx;
      NearestIff(i, j, dy, dx);
      NearIs(i, j, dy, dx);
      Diagonal(i, j, dy, dx);
      LinearRight(dx, dy, Error(i, j, dy, dx), err);
      Advance(i, j, dy, dx);
      NearestRuns(i + 1, dy, dx);
      var j2 := if down then j + 1 else j;
      ErrorIs(dx, dy, i + 1, j2);
      LastOrFits(dx, dy, i + 1);
      Int16Twice(err - dy, dx);
      Int16Exact(if down then err - dy + dx else err - dy);
    } else {
      assert -0x8000 <= DoubledError(dx, dy, i, j) < 0x8000;
      var right := err * 2 > -(dy as int);
      NearestIff(j, i, dx, dy);
      NearIs(j, i, dx, dy);
      LinearDown(dx, dy, Error(j, i, dx, dy), err);
      Advance(j, i, dx, dy);
      NearestRuns(j + 1, dx, dy);
      var i2 := if right then i + 1 else i;
      ErrorIs(dx, dy, i2, j + 1);
      LastOrFits(dx, dy, j + 1);
      Int16Twice(err - dy, dx);
      Int16Exact(if right then err - dy + dx else err + dx);
    }
  }

  // The doubled error after k steps, the last one included.
  lemma LastOrFits(dx: nat, dy: nat, k: nat)
    requires Fits(dx, dy) && 0 < k <= Max(dx, dy) && dx <= 0x7FFF && dy <= 0x7FFF
    ensures dx >= dy ==> -0x1_0000 <= DoubledError(dx, dy, k, Nearest(k, dy, dx)) < 0x1_0000
    ensures dx < dy ==> -0x1_0000 <= DoubledError(dx, dy, Nearest(k, dx, dy), k) < 0x1_0000
  {
    hide Nearest;
    if dx >= dy && k == dx {
      NearestRuns(k, dy, dx);
    } else if dx < dy && k == dy {
      NearestRuns(k, dx, dy);
    }
  }

  lemma Int16Twice(a: int, b: int)
    ensures Int16(Int16(a) + b) == Int16(a + b)
  {
  }

  lemma NearIs(k: nat, m: int, minor: nat, major: nat)
    requires Near(k, m, minor, major)
    ensures -(major as int) < 2 * Error(k, m, minor, major) <= major
    ensures minor == 0 ==> Error(k, m, minor, major) == 0
  {
    if minor == 0 {
      Times(1, m, major);
      Times(m, -1, major);
    }
  }

  lemma ErrorIs(dx: nat, dy: nat, i: int, j: int)
    requires i >= 0 && j >= 0
    ensures DoubledError(dx, dy, i, j) == 2 * (dx - dy - Error(i, j, dy, dx))
    ensures DoubledError(dx, dy, i, j) == 2 * (dx - dy + Error(j, i, dx, dy))
  {
  }

  lemma LinearRight(dx: nat, dy: nat, d: int, err: int)
    requires dy <= dx && -(dx as int) < 2 * d <= dx && err == dx - dy - d && (dx == dy ==> d == 0)
    requires 0 < dx && -0x8000 <= 2 * err < 0x8000
    ensures Int16(err * 2) == err * 2 && err * 2 > -(dy as int)
    ensures err * 2 < dx <==> 2 * (d + dy) > dx
  {
    Int16Exact(err * 2);
  }

  lemma LinearDown(dx: nat, dy: nat, d: int, err: int)
    requires dx < dy && -(dy as int) < 2 * d <= dy && err == dx - dy + d
    requires -0x8000 <= 2 * err < 0x8000
    ensures Int16(err * 2) == err * 2 && err * 2 < dx
    ensures err * 2 > -(dy as int) <==> 2 * (d + dx) > dy
  {
    Int16Exact(err * 2);
  }

  // On a diagonal the two axes stay level.
  lemma Diagonal(k: nat, m: int, minor: nat, major: nat)
    requires 0 < major && Near(k, m, minor, major)
    ensures minor == major ==> Error(k, m, minor, major) == 0
  {
    if minor == major {
      assert k * minor - m * major == (k - m) * major;
      Times(1, k - m, major);
      Times(k - m, -1, major);
    }
  }
}
