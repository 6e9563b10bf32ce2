/** A percentage of the free space, `((double)size / 100) * free`, cut to a whole number, in IEEE 754 double
    precision: 53 bits, rounded to the nearest, ties to even. */
module DoubleShare {
  import opened Common

  const P52 := 0x10_0000_0000_0000

  /** The value `m / p`; `p` is a power of two. */
  datatype Double = Double(m: nat, p: nat)

  /** The whole number nearest to `n / d`. */
  function Near(n: nat, d: nat): (r: nat)
    requires d > 0
  {
    var q, rest := n / d, n % d;
    if 2 * rest < d || (2 * rest == d && q % 2 == 0) then q else q + 1
  }

  /** The first of `p`, `2 * p`, .. that makes a quotient by 100 fill 53 bits. */
  function Scale(size: nat, p: nat): (r: nat)
    requires size > 0 && p > 0
    ensures r >= p && size * r >= 100 * P52
    decreases 100 * P52 - size * p
  {
    if size * p >= 100 * P52 then p
    else
      assert size * (2 * p) == size * p + size * p && size * p >= p;
      Scale(size, 2 * p)
  }

  /** `(double)size / 100`, for a 32-bit number. */
  function Hundredth(size: nat): (r: Double)
    ensures r.p > 0
  {
    if size == 0 then Double(0, 1) else var p := Scale(size, 1); Double(Near(size * p, 100), p)
  }

  /** The first of `u`, `2 * u`, .. in which `n` has at most 53 bits. */
  function Unit(n: nat, u: nat): (r: nat)
    requires u > 0
    ensures r > 0 && n < 2 * P52 * r && (r > u ==> n >= P52 * r)
    decreases n - u
  {
    if n < 2 * P52 * u then u else Unit(n, 2 * u)
  }

  /** The product with a number of at most 53 bits. */
  function Times(x: Double, free: nat): (r: Double)
    requires x.p > 0
    ensures r.p > 0
  {
    var n := x.m * free;
    var u := Unit(n, 1);
    Double(Near(n, u) * u, x.p)
  }

  /** The conversion to a whole number. */
  function Truncated(x: Double): nat
    requires x.p > 0
  {
    x.m / x.p
  }

  /** The share that `size` per cent of `free` sectors come to. */
  function Share(size: nat, free: nat): nat {
    Truncated(Times(Hundredth(size), free))
  }

  // ---------------------------------------------------------------- how far a share can be off

  lemma NearIs(n: nat, d: nat)
    requires d > 0
    ensures 2 * n - d <= 2 * (Near(n, d) * d) <= 2 * n + d
  {
    var q, rest := n / d, n % d;
    assert n == q * d + rest;
    assert (q + 1) * d == q * d + d;
  }

  /** It is the only whole number that is nearest, or, of two, the even one. */
  lemma TiesToEven(n: nat, d: nat, k: nat)
    requires d > 0 && 2 * n - d <= 2 * (k * d) <= 2 * n + d
    ensures 2 * n - d < 2 * (k * d) < 2 * n + d || k % 2 == 0 ==> Near(n, d) == k
  {
    var q, rest: int := n / d, n % d;
    assert n == q * d + rest;
    Neighbours(n, d, k, q, rest);
  }

  lemma Neighbours(n: int, d: int, k: int, q: int, rest: int)
    requires n == q * d + rest && 0 <= rest < d && 2 * n - d <= 2 * (k * d) <= 2 * n + d
    ensures k == q || k == q + 1
    ensures k == q + 1 ==> k * d == q * d + d
  {
    var e := k - q;
    var x := e * d;
    assert k * d == q * d + x;
    assert e >= 2 ==> x >= 2 * d;
    assert e <= -1 ==> x <= -d;
    assert e == 1 ==> x == d;
  }

  /** A multiple of `d` less than half of `d` above `n`, or not above it at all, is reached. */
  lemma NearReaches(n: nat, d: nat, k: nat)
    requires d > 0 && 2 * (k * d - n) < d
    ensures Near(n, d) >= k
  {
    NearIs(n, d);
    var e: int := k - Near(n, d);
    assert e * d == k * d - Near(n, d) * d;
    assert e >= 1 ==> e * d >= d;
  }

  lemma HundredthIs(size: nat)
    requires 0 < size <= 100
    ensures var x := Hundredth(size);
      x.p >= P52 && -50 <= 100 * x.m - size * x.p <= 50 && x.m <= 2 * P52
  {
    hide Near, Scale;
    var p := Scale(size, 1);
    ScaleLeast(size, 1);
    NearIs(size * p, 100);
    FactorAtLeast(size, p, P52);
  }

  lemma FactorAtLeast(size: nat, p: nat, q: nat)
    requires size <= 100 && size * p >= 100 * q
    ensures p >= q
  {
    assert (100 - size) * p >= 0;
  }

  /** The product is cut to a unit that is not large. */
  lemma UnitSmall(m: nat, free: nat)
    requires m <= 2 * P52 && free > 0
    ensures 0 < Unit(m * free, 1) <= 2 * free
  {
    hide Unit;
    var n, u := m * free, Unit(m * free, 1);
    assert (2 * P52 - m) * free >= 0;
  }

  lemma {:induction false} ScaleLeast(size: nat, p: nat)
    requires size > 0 && p > 0 && size * p < 200 * P52
    ensures size * Scale(size, p) < 200 * P52
    decreases 100 * P52 - size * p
  {
    if size * p < 100 * P52 {
      assert size * (2 * p) == size * p + size * p && size * p >= p;
      ScaleLeast(size, 2 * p);
    }
  }

  lemma TimesSmall(e: int, free: int)
    requires -50 <= e <= 50 && free > 0
    ensures -50 * free <= e * free <= 50 * free
  {
    assert (50 - e) * free >= 0 && (e + 50) * free >= 0;
  }

  lemma Rearranged(size: int, free: int, m: int, p: int)
    ensures (100 * m - size * p) * free == 100 * (m * free) - size * free * p
  {
    assert (100 * m - size * p) * free == 100 * m * free - size * p * free;
    assert size * p * free == size * free * p;
  }

  /** The product is off by less than a hundredth. */
  lemma ProductIs(size: nat, free: nat)
    requires 0 < size <= 100 && 0 < free < 0x1_0000_0000
    ensures var x := Times(Hundredth(size), free);
      x.p >= P52 && size * free * x.p - x.p < 100 * x.m < size * free * x.p + x.p
  {
    hide Hundredth, Unit, Near;
    HundredthIs(size);
    var x := Hundredth(size);
    UnitSmall(x.m, free);
    var n, u := x.m * free, Unit(x.m * free, 1);
    NearIs(n, u);
    TimesSmall(100 * x.m - size * x.p, free);
    Rearranged(size, free, x.m, x.p);
    var t := Times(x, free);
    assert t.p == x.p && 2 * n - u <= 2 * t.m <= 2 * n + u;
    Within(t.m, n, u, size * free * x.p, free, x.p);
  }

  lemma Within(t: int, n: int, u: int, y: int, free: int, p: int)
    requires 2 * n - u <= 2 * t <= 2 * n + u && u <= 2 * free && free < 0x1_0000_0000 && p >= P52
    requires -50 * free <= 100 * n - y <= 50 * free
    ensures y - p < 100 * t < y + p
  {
  }

  /** A share is the exact one, cut to a whole number, or one less. */
  lemma ShareIs(size: nat, free: nat)
    requires 0 <= size <= 100 && 0 < free < 0x1_0000_0000
    ensures size * free - 100 <= 100 * Share(size, free) <= size * free
    ensures size * free % 100 != 0 ==> Share(size, free) == size * free / 100
  {
    hide Hundredth, Times;
    if size == 0 {
      NothingShared(free);
    } else {
      ProductIs(size, free);
      var x := Times(Hundredth(size), free);
      Cut(x.m, x.p, size * free);
    }
  }

  lemma NothingShared(free: nat)
    ensures Share(0, free) == 0
  {
    assert Hundredth(0) == Double(0, 1);
    assert Unit(0, 1) == 1 && Near(0, 1) == 0;
  }

  lemma Cut(t: nat, p: nat, y: nat)
    requires p > 100 && y * p - p < 100 * t < y * p + p
    ensures y - 100 <= 100 * (t / p) <= y
  {
    var s, r: int := t / p, t % p;
    assert t == s * p + r;
    var a: int := 100 * s - y;
    assert a * p == 100 * (s * p) - y * p;
    assert a >= 1 ==> a * p >= p;
    var b: int := y - 100 * s - 101;
    assert b * p == y * p - 100 * (s * p) - 101 * p;
    assert b >= 0 ==> b * p >= 0;
  }

  // ---------------------------------------------------------------- which shares can be short

  /** The percentages whose hundredth lies so far below the exact one that a whole share can be lost. */
  predicate FallsShort(size: int) {
    size in {29, 35, 41, 47, 57, 58, 69, 70, 82, 94}
  }

  lemma {:induction false} ScaleIs(size: nat, k: nat, n: nat)
    requires k <= n && 100 * P52 <= size * Pow2(n) < 200 * P52 && size > 0
    ensures Scale(size, Pow2(k)) == Pow2(n)
    decreases n - k
  {
    hide Pow2;
    if k < n {
      PowGrows(k, n);
      HalfAtMost(size, Pow2(k), Pow2(n));
      DoublePow(k);
      ScaleIs(size, k + 1, n);
    }
  }

  lemma HalfAtMost(size: nat, a: nat, b: nat)
    requires 2 * a <= b
    ensures 2 * (size * a) <= size * b
  {
    assert size * b - 2 * (size * a) == size * (b - 2 * a);
  }

  lemma Powers()
    ensures Pow2(52) == P52 && Pow2(53) == 2 * P52 && Pow2(54) == 4 * P52 && Pow2(55) == 8 * P52
    ensures Pow2(56) == 16 * P52 && Pow2(57) == 32 * P52 && Pow2(58) == 64 * P52 && Pow2(59) == 128 * P52
  {
    hide Pow2;
    Pow32();
    assert Pow2(20) == 0x10_0000 by {
      Twenty();
    }
    PowSplits(32, 52);
    DoublePow(52);
    DoublePow(53);
    DoublePow(54);
    DoublePow(55);
    DoublePow(56);
    DoublePow(57);
    DoublePow(58);
  }

  lemma DoublePow(k: nat)
    ensures Pow2(k + 1) == 2 * Pow2(k)
  {
  }

  lemma Twenty()
    ensures Pow2(20) == 0x10_0000
  {
    assert Pow2(10) == 1024;
    PowSplits(10, 20);
  }

  /** How often P52 goes into the scale of a percentage. */
  function Factor(size: nat): nat {
    if size >= 100 then 1
    else if size >= 50 then 2
    else if size >= 25 then 4
    else if size >= 13 then 8
    else if size >= 7 then 16
    else if size >= 4 then 32
    else if size >= 2 then 64
    else 128
  }

  lemma ScaleAt(size: nat)
    requires 0 < size <= 100
    ensures Scale(size, 1) == Factor(size) * P52
  {
    hide Pow2, Scale;
    Powers();
    assert Pow2(0) == 1 by {
      NoPow();
    }
    var n := if size >= 100 then 52 else if size >= 50 then 53 else if size >= 25 then 54 else if size >= 13 then 55
             else if size >= 7 then 56 else if size >= 4 then 57 else if size >= 2 then 58 else 59;
    assert Pow2(n) == Factor(size) * P52;
    ScaleIs(size, 0, n);
  }

  lemma NoPow()
    ensures Pow2(0) == 1
  {
  }

  /** What is left over from the division that gives the hundredth, in P52ths of its scale. */
  lemma LeftOver(z: nat)
    requires 100 <= z < 200 && !(113 <= z <= 117 || 138 <= z <= 141 || 163 <= z <= 164 || z == 188)
    ensures 2 * (96 * z % 100) > 100 || 4 * (96 * z % 100) < z
  {
    var a, b := z / 25, z % 25;
    assert z == 25 * a + b && a < 8;
    assert 96 * z == 100 * (24 * a + b) - 4 * b;
    if b == 0 {
      QuotientIs(24 * a, 0);
    } else {
      QuotientIs(24 * a + b - 1, 100 - 4 * b);
    }
    assert a == 4 || a == 5 || a == 6 || a == 7;
  }

  lemma QuotientIs(q: nat, r: nat)
    requires r < 100
    ensures (100 * q + r) / 100 == q && (100 * q + r) % 100 == r
  {
  }

  lemma Scaled(size: nat)
    requires 0 < size <= 100 && !FallsShort(size)
    ensures var z := size * Factor(size);
      100 <= z < 200 && !(113 <= z <= 117 || 138 <= z <= 141 || 163 <= z <= 164 || z == 188)
  {
    assert size >= 50 ==> size * Factor(size) == if size == 100 then 100 else 2 * size;
    assert 25 <= size < 50 ==> size * Factor(size) == 4 * size;
    assert 13 <= size < 25 ==> size * Factor(size) == 8 * size;
    assert 7 <= size < 13 ==> size * Factor(size) == 16 * size;
    assert 4 <= size < 7 ==> size * Factor(size) == 32 * size;
    assert 2 <= size < 4 ==> size * Factor(size) == 64 * size;
  }

  lemma Split96(z: nat)
    requires 100 <= z < 200
    ensures var n, r := z * P52, 96 * z % 100;
      Near(n, 100) == (n - r) / 100 + (if 2 * r > 100 then 1 else 0) && (n - r) % 100 == 0
  {
    var n, r, k := z * P52, 96 * z % 100, 96 * z / 100;
    var q := 45035996273704 * z + k;
    assert n == 100 * q + r;
    QuotientIs(q, r);
    QuotientIs(q, 0);
    NotHalf(z);
  }

  lemma NotHalf(z: nat)
    ensures 96 * z % 100 != 50
  {
  }

  /** For the other percentages less than half a bit of the hundredth is missing. */
  lemma Deficit(size: nat)
    requires 0 < size <= 100 && !FallsShort(size)
    ensures var x := Hundredth(size); (size * x.p - 100 * x.m) * (4 * P52) < size * x.p
  {
    hide Scale, Near, Factor;
    ScaleAt(size);
    Scaled(size);
    LeftOver(size * Factor(size));
    var x, z := Hundredth(size), size * Factor(size);
    assert size * x.p == z * P52;
    Split96(z);
    var r := 96 * z % 100;
    assert size * x.p - 100 * x.m == if 2 * r > 100 then r - 100 else r;
  }

  lemma {:induction false} UnitPower(n: nat, c: nat) returns (b: nat)
    ensures Unit(n, Pow2(c)) == Pow2(b)
    decreases n - Pow2(c)
  {
    if n < 2 * P52 * Pow2(c) {
      b := c;
    } else {
      DoublePow(c);
      b := UnitPower(n, c + 1);
    }
  }

  lemma PowerBelow(b: nat, c: nat)
    requires Pow2(b) < Pow2(c)
    ensures b < c
  {
    if c <= b {
      PowGrows(c, b);
    }
  }

  /** The scale of a percentage is a multiple of the unit of its product. */
  lemma UnitDivides(size: nat, free: nat) returns (w: nat)
    requires 0 < size <= 100 && 0 < free < 0x1_0000_0000
    ensures var x := Hundredth(size); x.p == Unit(x.m * free, 1) * w
  {
    hide Pow2, Unit, Scale, Near, Factor;
    HundredthIs(size);
    ScaleAt(size);
    var x := Hundredth(size);
    UnitSmall(x.m, free);
    NoPow();
    Powers();
    var b := UnitPower(x.m * free, 0);
    PowerBelow(b, 52);
    var a := ScalePower(size);
    PowSplits(b, a);
    w := Pow2(a - b);
  }

  lemma ScalePower(size: nat) returns (a: nat)
    requires 0 < size <= 100
    ensures a >= 52 && Hundredth(size).p == Pow2(a)
  {
    hide Pow2, Scale, Near;
    ScaleAt(size);
    Powers();
    a := if size >= 100 then 52 else if size >= 50 then 53 else if size >= 25 then 54 else if size >= 13 then 55
         else if size >= 7 then 56 else if size >= 4 then 57 else if size >= 2 then 58 else 59;
  }

  /** Less than half a unit is missing. */
  lemma LessThanHalf(n: int, k: nat, u: nat)
    requires u > 0 && n < 2 * P52 * u && (k * u - n) * (4 * P52) < k * u
    ensures 2 * (k * u - n) < u
  {
    var g, h := k * u - n, (k - 2 * P52) * u;
    assert k * u == 2 * P52 * u + h;
    assert k > 2 * P52 ==> h >= u;
  }

  lemma Missing(size: nat, free: nat, m: nat, p: nat, y: nat)
    requires free > 0 && size * free == 100 * y && (size * p - 100 * m) * (4 * P52) < size * p
    ensures (y * p - m * free) * (4 * P52) < y * p
  {
    var e := size * p - 100 * m;
    Rearranged(size, free, m, p);
    assert e * free == (size * p - 100 * m) * free;
    assert -(e * free) == 100 * (m * free) - size * free * p;
    assert size * free * p == 100 * y * p == 100 * (y * p);
    assert (e * (4 * P52)) * free < size * p * free;
    assert size * p * free == size * free * p;
    assert (e * (4 * P52)) * free == (e * free) * (4 * P52);
  }

  /** Rounding makes up for it. */
  lemma Reached(n: nat, u: nat, w: nat, p: nat, y: nat)
    requires u > 0 && p == u * w && n < 2 * P52 * u && (y * p - n) * (4 * P52) < y * p
    ensures Near(n, u) * u >= y * p
  {
    hide Near;
    var k := y * w;
    assert k * u == y * p;
    LessThanHalf(n, k, u);
    NearReaches(n, u, k);
    assert (Near(n, u) - k) * u >= 0;
  }

  lemma TimesReached(size: nat, free: nat, y: nat)
    requires 0 < size <= 100 && !FallsShort(size) && 0 < free < 0x1_0000_0000 && size * free == 100 * y
    ensures var t := Times(Hundredth(size), free); t.p > 0 && t.m >= y * t.p
  {
    hide Hundredth, Unit, Near;
    Deficit(size);
    var x := Hundredth(size);
    var w := UnitDivides(size, free);
    Missing(size, free, x.m, x.p, y);
    Reached(x.m * free, Unit(x.m * free, 1), w, x.p, y);
  }

  /** Only those shares can be short. */
  lemma WholeShare(size: nat, free: nat, y: nat)
    requires size <= 100 && !FallsShort(size) && 0 < free < 0x1_0000_0000 && size * free == 100 * y
    ensures Share(size, free) == y
  {
    hide Hundredth, Times;
    ShareIs(size, free);
    if size == 0 {
      NothingShared(free);
    } else {
      TimesReached(size, free, y);
      var t := Times(Hundredth(size), free);
      AtLeastQuotient(t.m, t.p, y);
    }
  }

  lemma AtLeastQuotient(t: nat, p: nat, y: nat)
    requires p > 0 && t >= y * p
    ensures t / p >= y
  {
    QuotientGrows(y * p, t, p);
    var q := y * p / p;
    var e: int := y - q;
    assert e * p == y * p - q * p;
    assert e >= 1 ==> e * p >= p;
  }

  /** One of them is: 29 per cent of 100 sectors are 28. */
  lemma SectorLost()
    ensures Share(29, 100) == 28
  {
    hide Scale, Unit;
    ScaleAt(29);
    var x := Hundredth(29);
    assert x.p == 4 * P52 && 100 * x.m == 116 * P52 - 36;
    var n := x.m * 100;
    UnitIs64(n);
    assert n == 64 * (116 * (P52 / 64) - 1) + 28;
    assert Times(x, 100).m == 116 * P52 - 64;
  }

  lemma UnitIs64(n: nat)
    requires 64 * P52 <= n < 128 * P52
    ensures Unit(n, 1) == 64
  {
    assert Unit(n, 32) == Unit(n, 64) == 64;
    assert Unit(n, 8) == Unit(n, 16) == Unit(n, 32);
    assert Unit(n, 2) == Unit(n, 4) == Unit(n, 8);
  }
}
