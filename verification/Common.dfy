/** What several of the programs need: bytes, optional values, powers of two and rounding. */
module Common {

  newtype byte = x: int | 0 <= x < 256

  datatype Option<+T> = None | Some(value: T)

  function Pow2(k: nat): (r: nat)
    ensures r > 0
  {
    if k == 0 then 1 else 2 * Pow2(k - 1)
  }

  /** `roundup`: the least multiple of `m` that is not below `n`, for numbers that are not negative. */
  function RoundUp(n: int, m: int): (r: int)
    requires m > 0
    ensures n >= 0 ==> r >= 0
  {
    var q := (n + m - 1) / m;
    assert n >= 0 ==> q >= 0 && q * m >= 0;
    q * m
  }

  /** No multiple that is not below `n` is smaller. */
  lemma RoundUpIsLeast(n: int, m: int)
    requires m > 0
    ensures exists q: int :: RoundUp(n, m) == q * m
    ensures n <= RoundUp(n, m) < n + m
    ensures forall k: int :: n <= k * m ==> RoundUp(n, m) <= k * m
  {
    var q := (n + m - 1) / m;
    var r := (n + m - 1) % m;
    assert n + m - 1 == q * m + r && RoundUp(n, m) == q * m;
    forall k: int | n <= k * m ensures q * m <= k * m {
      MultiplesApart(k, q, m);
    }
  }

  lemma MultiplesApart(k: int, q: int, m: int)
    requires m > 0
    ensures k < q ==> k * m + m <= q * m
    ensures k >= q ==> k * m >= q * m
  {
    assert q * m == k * m + (q - k) * m;
    assert q - k >= 1 ==> (q - k) * m >= m;
    assert q - k <= 0 ==> (q - k) * m <= 0;
  }

  lemma {:induction false} PowGrows(a: nat, b: nat)
    requires a <= b
    ensures Pow2(a) <= Pow2(b) && (a < b ==> 2 * Pow2(a) <= Pow2(b))
  {
    if a < b {
      PowGrows(a, b - 1);
    }
  }

  lemma {:induction false} PowSplits(a: nat, b: nat)
    requires a <= b
    ensures Pow2(b) == Pow2(a) * Pow2(b - a)
  {
    if a < b {
      PowSplits(a, b - 1);
      assert Pow2(b - a) == 2 * Pow2(b - 1 - a);
      assert Pow2(a) * (2 * Pow2(b - 1 - a)) == 2 * (Pow2(a) * Pow2(b - 1 - a));
    } else {
      assert Pow2(0) == 1;
    }
  }

  lemma Pow32()
    ensures Pow2(32) == 0x1_0000_0000
  {
    assert Pow2(8) == 256;
    PowSplits(8, 16);
    PowSplits(16, 32);
  }

  lemma TimesBelow(a: nat, b: nat, m: nat)
    requires a < b && m > 0
    ensures a * m < b * m
  {
  }

  lemma QuotientBelow(x: nat, c: nat, m: nat)
    requires m > 0 && x < c * m
    ensures x / m < c
  {
    var q := x / m;
    assert q >= c ==> m * q >= m * c;
  }

  lemma QuotientGrows(a: nat, b: nat, m: int)
    requires m > 0 && a <= b
    ensures a / m <= b / m
  {
    var q, r := a / m, b / m;
    assert q >= r + 1 ==> m * q >= m * (r + 1);
  }
}
