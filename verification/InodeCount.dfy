/** `calcipg`: the number of inodes per cylinder group, which depends on itself. */
module InodeCount {
  import opened Common

  /** Division as C does it, towards zero. */
  function Div(a: int, m: int): int
    requires m > 0
  {
    if a >= 0 then a / m else -(-a / m)
  }

  lemma DivGrows(a: int, b: int, m: int)
    requires m > 0 && a <= b
    ensures Div(a, m) <= Div(b, m)
  {
    if a >= 0 {
      QuotientGrows(a, b, m);
    } else if b < 0 {
      QuotientGrows(-b, -a, m);
    } else {
      QuotientGrows(0, -a, m);
      QuotientGrows(0, b, m);
      assert 0 / m == 0;
    }
  }

  lemma TimesGrows(a: int, b: int, m: int)
    requires m >= 0 && a <= b
    ensures a * m <= b * m
  {
    assert (b - a) * m >= 0;
  }

  datatype Disk = Disk(
    fssize: int, secpercyl: int, density: int, sectorsize: int, iblkno: int, inopf: int, nspf: int, inopb: int)
  {
    predicate Valid() {
      fssize >= 0 && secpercyl > 0 && density > 0 && sectorsize > 0 && inopf > 0 && nspf > 0 && inopb > 0
    }

    /** Cylinder groups of `cpg` cylinders. */
    function Ncg(cpg: int): int
      requires Valid() && cpg > 0
    {
      var ncyl := Div(fssize + secpercyl - 1, secpercyl);
      Div(ncyl + cpg - 1, cpg)
    }

    /** The bytes of a group that are used when it has `ipg` inodes. */
    function Used(ipg: int): int
      requires Valid()
    {
      (iblkno + Div(ipg, inopf)) * nspf * sectorsize
    }

    function RoundUp(n: int): int
      requires Valid()
    {
      Div(n + inopb - 1, inopb) * inopb
    }

    /** The inodes that `density` bytes each leave room for when the group is assumed to have `ipg`. */
    function Step(cpg: int, bpcg: int, ipg: int): int
      requires Valid() && cpg > 0 && Ncg(cpg) > 0
    {
      RoundUp(Div(Div(Div(Div(cpg * bpcg - Used(ipg), density) * fssize, Ncg(cpg)), secpercyl), cpg))
    }

    /** The value after `k` steps from 0. */
    function Iterate(cpg: int, bpcg: int, k: nat): int
      requires Valid() && cpg > 0 && Ncg(cpg) > 0
    {
      if k == 0 then 0 else Step(cpg, bpcg, Iterate(cpg, bpcg, k - 1))
    }
  }

  /** More inodes use more room, so the step turns the order around. */
  lemma StepFalls(d: Disk, cpg: int, bpcg: int, x: int, y: int)
    requires d.Valid() && cpg > 0 && d.Ncg(cpg) > 0 && x <= y
    ensures d.Step(cpg, bpcg, x) >= d.Step(cpg, bpcg, y)
  {
    DivGrows(x, y, d.inopf);
    TimesGrows(d.iblkno + Div(x, d.inopf), d.iblkno + Div(y, d.inopf), d.nspf);
    TimesGrows((d.iblkno + Div(x, d.inopf)) * d.nspf, (d.iblkno + Div(y, d.inopf)) * d.nspf, d.sectorsize);
    var a, b := cpg * bpcg - d.Used(x), cpg * bpcg - d.Used(y);
    ScaleGrows(d, cpg, b, a);
  }

  lemma ScaleGrows(d: Disk, cpg: int, a: int, b: int)
    requires d.Valid() && cpg > 0 && d.Ncg(cpg) > 0 && a <= b
    ensures d.RoundUp(Div(Div(Div(Div(a, d.density) * d.fssize, d.Ncg(cpg)), d.secpercyl), cpg))
         <= d.RoundUp(Div(Div(Div(Div(b, d.density) * d.fssize, d.Ncg(cpg)), d.secpercyl), cpg))
  {
    hide Div, d.Ncg;
    var ncg := d.Ncg(cpg);
    var a1, b1 := Div(a, d.density), Div(b, d.density);
    DivGrows(a, b, d.density);
    TimesGrows(a1, b1, d.fssize);
    DivGrows(a1 * d.fssize, b1 * d.fssize, ncg);
    DivGrows(Div(a1 * d.fssize, ncg), Div(b1 * d.fssize, ncg), d.secpercyl);
    var a2, b2 := Div(Div(a1 * d.fssize, ncg), d.secpercyl), Div(Div(b1 * d.fssize, ncg), d.secpercyl);
    DivGrows(a2, b2, cpg);
    var a3, b3 := Div(a2, cpg), Div(b2, cpg);
    DivGrows(a3 + d.inopb - 1, b3 + d.inopb - 1, d.inopb);
    TimesGrows(Div(a3 + d.inopb - 1, d.inopb), Div(b3 + d.inopb - 1, d.inopb), d.inopb);
  }

  ghost predicate Fixed(d: Disk, cpg: int, bpcg: int, ipg: int)
    requires d.Valid() && cpg > 0 && d.Ncg(cpg) > 0
  {
    d.Step(cpg, bpcg, ipg) == ipg
  }

  /** At most one count explains itself. */
  lemma OneFixedPoint(d: Disk, cpg: int, bpcg: int, x: int, y: int)
    requires d.Valid() && cpg > 0 && d.Ncg(cpg) > 0 && Fixed(d, cpg, bpcg, x) && Fixed(d, cpg, bpcg, y)
    ensures x == y
  {
    hide d.Step;
    if x <= y {
      StepFalls(d, cpg, bpcg, x, y);
    } else {
      StepFalls(d, cpg, bpcg, y, x);
    }
  }

  /** The even and the odd iterates lie on the two sides of the fixed point: below and above when the first
      step is not negative, above and below when it is not positive. */
  lemma {:induction false} FixedPointBracketed(d: Disk, cpg: int, bpcg: int, p: int, k: nat)
    requires d.Valid() && cpg > 0 && d.Ncg(cpg) > 0 && Fixed(d, cpg, bpcg, p)
    ensures d.Iterate(cpg, bpcg, 1) >= 0 ==> d.Iterate(cpg, bpcg, 2 * k) <= p <= d.Iterate(cpg, bpcg, 2 * k + 1)
    ensures d.Iterate(cpg, bpcg, 1) <= 0 ==> d.Iterate(cpg, bpcg, 2 * k) >= p >= d.Iterate(cpg, bpcg, 2 * k + 1)
  {
    hide d.Step;
    var one := d.Iterate(cpg, bpcg, 1);
    assert one == d.Step(cpg, bpcg, d.Iterate(cpg, bpcg, 0));
    if k == 0 {
      if p <= 0 {
        StepFalls(d, cpg, bpcg, p, 0);
      } else {
        StepFalls(d, cpg, bpcg, 0, p);
      }
    } else {
      FixedPointBracketed(d, cpg, bpcg, p, k - 1);
      var odd, even := d.Iterate(cpg, bpcg, 2 * k - 1), d.Iterate(cpg, bpcg, 2 * k);
      Between(d, cpg, bpcg, p, odd);
      Between(d, cpg, bpcg, p, even);
    }
  }

  lemma Between(d: Disk, cpg: int, bpcg: int, p: int, x: int)
    requires d.Valid() && cpg > 0 && d.Ncg(cpg) > 0 && Fixed(d, cpg, bpcg, p)
    ensures x <= p ==> d.Step(cpg, bpcg, x) >= p
    ensures x >= p ==> d.Step(cpg, bpcg, x) <= p
  {
    hide d.Step;
    if x <= p {
      StepFalls(d, cpg, bpcg, x, p);
    }
    if x >= p {
      StepFalls(d, cpg, bpcg, p, x);
    }
  }

  /** The bracket closes exactly when two steps from 0 do not lead below 0: even iterates then rise and odd
      ones fall; otherwise it opens. */
  lemma {:induction false} BracketCloses(d: Disk, cpg: int, bpcg: int, k: nat)
    requires d.Valid() && cpg > 0 && d.Ncg(cpg) > 0
    ensures d.Iterate(cpg, bpcg, 2) >= 0 ==>
      && d.Iterate(cpg, bpcg, 2 * k) <= d.Iterate(cpg, bpcg, 2 * k + 2)
      && d.Iterate(cpg, bpcg, 2 * k + 1) >= d.Iterate(cpg, bpcg, 2 * k + 3)
    ensures d.Iterate(cpg, bpcg, 2) <= 0 ==>
      && d.Iterate(cpg, bpcg, 2 * k) >= d.Iterate(cpg, bpcg, 2 * k + 2)
      && d.Iterate(cpg, bpcg, 2 * k + 1) <= d.Iterate(cpg, bpcg, 2 * k + 3)
  {
    hide d.Step;
    var a, c := d.Iterate(cpg, bpcg, 2 * k), d.Iterate(cpg, bpcg, 2 * k + 2);
    if k > 0 {
      BracketCloses(d, cpg, bpcg, k - 1);
      Ordered(d, cpg, bpcg, d.Iterate(cpg, bpcg, 2 * k - 1), d.Iterate(cpg, bpcg, 2 * k + 1));
    }
    Ordered(d, cpg, bpcg, a, c);
  }

  lemma Ordered(d: Disk, cpg: int, bpcg: int, x: int, y: int)
    requires d.Valid() && cpg > 0 && d.Ncg(cpg) > 0
    ensures x <= y ==> d.Step(cpg, bpcg, x) >= d.Step(cpg, bpcg, y)
    ensures x >= y ==> d.Step(cpg, bpcg, x) <= d.Step(cpg, bpcg, y)
  {
    hide d.Step;
    if x <= y {
      StepFalls(d, cpg, bpcg, x, y);
    }
    if x >= y {
      StepFalls(d, cpg, bpcg, y, x);
    }
  }

  /** Every iterate fills whole inode blocks. */
  lemma WholeBlocks(d: Disk, cpg: int, bpcg: int, k: nat)
    requires d.Valid() && cpg > 0 && d.Ncg(cpg) > 0
    ensures exists q: int :: d.Iterate(cpg, bpcg, k) == q * d.inopb
  {
    if k == 0 {
      assert d.Iterate(cpg, bpcg, k) == 0 * d.inopb;
    } else {
      var n := Div(Div(Div(Div(cpg * bpcg - d.Used(d.Iterate(cpg, bpcg, k - 1)), d.density) * d.fssize,
                               d.Ncg(cpg)), d.secpercyl), cpg);
      assert d.Iterate(cpg, bpcg, k) == Div(n + d.inopb - 1, d.inopb) * d.inopb;
    }
  }

  /** `calcipg`: at most ten steps, and the used bytes of the last step begun.  `k` counts the steps taken. */
  method Calcipg(d: Disk, cpg: int, bpcg: int) returns (ipg: int, usedb: int, ghost k: nat)
    requires d.Valid() && cpg > 0 && d.Ncg(cpg) > 0
    ensures k <= 10 && ipg == d.Iterate(cpg, bpcg, k)
    ensures forall i :: 0 <= i < k ==> !Fixed(d, cpg, bpcg, d.Iterate(cpg, bpcg, i))
    ensures k < 10 ==> Fixed(d, cpg, bpcg, ipg) && usedb == d.Used(ipg)
    ensures k == 10 ==> usedb == d.Used(d.Iterate(cpg, bpcg, 9))
    ensures exists q: int :: ipg == q * d.inopb
  {
    hide d.Used;
    ipg, usedb, k := 0, 0, 0;
    var ncyl := Div(d.fssize + d.secpercyl - 1, d.secpercyl);
    var ncg := Div(ncyl + cpg - 1, cpg);
    var i := 0;
    while i < 10
      invariant k == i <= 10 && ipg == d.Iterate(cpg, bpcg, k)
      invariant forall j :: 0 <= j < k ==> !Fixed(d, cpg, bpcg, d.Iterate(cpg, bpcg, j))
      invariant k > 0 ==> usedb == d.Used(d.Iterate(cpg, bpcg, k - 1))
    {
      usedb := d.Used(ipg);
      var n := Div(Div(Div(Div(cpg * bpcg - usedb, d.density) * d.fssize, ncg), d.secpercyl), cpg);
      n := d.RoundUp(n);
      if n == ipg {
        break;
      }
      ipg := n;
      i := i + 1;
      k := k + 1;
    }
    WholeBlocks(d, cpg, bpcg, k);
  }

  // ---------------------------------------------------------------- divisions, and two disks

  /** Division drops the remainder, whatever the sign. */
  lemma DivDrops(a: int, m: int)
    requires m > 0
    ensures var r := a - Div(a, m) * m; -m < r < m && (a >= 0 ==> r >= 0) && (a <= 0 ==> r <= 0)
    ensures Div(7, 2) == 3 && Div(-7, 2) == -3 && Div(-8, 2) == -4
  {
  }

  /** Inodes are rounded up to whole blocks of them, and by less than a block. */
  lemma RoundedUp(d: Disk, n: int)
    requires d.Valid()
    ensures n >= 0 ==> n <= d.RoundUp(n) < n + d.inopb
    ensures exists q: int :: d.RoundUp(n) == q * d.inopb
    ensures d.inopb == 64 ==> d.RoundUp(1) == d.RoundUp(64) == 64 && d.RoundUp(65) == 128 && d.RoundUp(-63) == 0
  {
    var x := n + d.inopb - 1;
    var q := Div(x, d.inopb);
    DivDrops(x, d.inopb);
    assert d.RoundUp(n) == q * d.inopb;
  }

  /** Groups hold `cpg` cylinders, and the last one may hold fewer. */
  lemma GroupsFor(d: Disk, cpg: int)
    requires d.Valid() && cpg > 0
    ensures d.fssize == 409600 && d.secpercyl == 1008 && cpg == 16 ==> d.Ncg(cpg) == 26
    ensures d.fssize == 1008 * 16 && d.secpercyl == 1008 && cpg == 16 ==> d.Ncg(cpg) == 1
    ensures d.fssize == 1008 * 16 + 1 && d.secpercyl == 1008 && cpg == 16 ==> d.Ncg(cpg) == 2
  {
  }

  /** A disk of 200 MB: 1984 inodes a group do not explain themselves, 1920 do. */
  lemma Settles(d: Disk)
    requires d == Disk(409600, 1008, 4096, 512, 32, 8, 2, 64)
    ensures d.Valid() && d.Ncg(16) == 26
    ensures d.Used(0) == 32768 && d.Used(1984) == 286720
    ensures d.Step(16, 516096, 0) == 1984 && d.Step(16, 516096, 1984) == 1920
    ensures d.Iterate(16, 516096, 1) == 1984 && d.Iterate(16, 516096, 2) == 1920 && Fixed(d, 16, 516096, 1920)
  {
    GroupsFor(d, 16);
    assert d.Iterate(16, 516096, 0) == 0;
  }

  /** A disk of 3000 sectors: 256 inodes a group lead to 192, and 192 to 256; the tenth iterate is 192, and
      the bytes used are those of 256. */
  lemma {:induction false} Alternates(d: Disk, k: nat)
    requires d == Disk(3000, 128, 1024, 512, 32, 8, 2, 64)
    ensures d.Valid() && d.Ncg(4) == 6
    ensures k > 0 ==> d.Iterate(4, 65536, k) == if k % 2 == 1 then 256 else 192
    ensures !Fixed(d, 4, 65536, 256) && !Fixed(d, 4, 65536, 192) && d.Used(256) == 65536
  {
    hide d.Step;
    AlternateSteps(d);
    if k > 1 {
      Alternates(d, k - 1);
    } else if k == 1 {
      assert d.Iterate(4, 65536, 0) == 0;
    }
  }

  lemma AlternateSteps(d: Disk)
    requires d == Disk(3000, 128, 1024, 512, 32, 8, 2, 64)
    ensures d.Valid() && d.Ncg(4) == 6 && d.Used(256) == 65536
    ensures d.Step(4, 65536, 0) == 256 && d.Step(4, 65536, 256) == 192 && d.Step(4, 65536, 192) == 256
  {
    assert d.Ncg(4) == 6 && d.Used(0) == 32768 && d.Used(256) == 65536 && d.Used(192) == 57344;
    hide d.Ncg, d.Used, d.Step;
    AlternateInodes();
    hide Div;
    StepOfSmall(d, 0, 218);
    StepOfSmall(d, 256, 187);
    StepOfSmall(d, 192, 195);
  }

  lemma AlternateInodes()
    ensures Div(Div(Div(Div(229376, 1024) * 3000, 6), 128), 4) == 218 && Div(281, 64) == 4
    ensures Div(Div(Div(Div(196608, 1024) * 3000, 6), 128), 4) == 187 && Div(250, 64) == 3
    ensures Div(Div(Div(Div(204800, 1024) * 3000, 6), 128), 4) == 195 && Div(258, 64) == 4
  {
    assert Div(229376, 1024) == 224 && Div(196608, 1024) == 192 && Div(204800, 1024) == 200;
    assert Div(672000, 6) == 112000 && Div(576000, 6) == 96000 && Div(600000, 6) == 100000;
  }

  lemma StepOfSmall(d: Disk, ipg: int, n: int)
    requires d == Disk(3000, 128, 1024, 512, 32, 8, 2, 64) && d.Ncg(4) == 6
    requires n == Div(Div(Div(Div(262144 - d.Used(ipg), 1024) * 3000, 6), 128), 4)
    ensures d.Step(4, 65536, ipg) == Div(n + 63, 64) * 64
  {
    hide d.Ncg, d.Used, Div;
  }
}
