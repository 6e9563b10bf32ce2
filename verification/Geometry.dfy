/** The geometry loops of `mkfs`: cylinder groups stay a whole number of blocks. */
module Geometry {
  import opened Common

  predicate PowerOf2(n: int)
    decreases n
  {
    n == 1 || (n > 1 && n % 2 == 0 && PowerOf2(n / 2))
  }

  lemma {:induction false} PowersMultiply(a: int, b: int)
    requires PowerOf2(a) && PowerOf2(b)
    ensures PowerOf2(a * b)
    decreases a
  {
    if a > 1 {
      var h := a / 2;
      PowersMultiply(h, b);
      DoublePower(h * b);
      Distribute(2, h, b);
    }
  }

  /** A power of two that divides `c * i`, where `i` is odd, divides `c`. */
  lemma {:induction false} OddDoesNotHelp(p: int, c: int, i: int, m: int) returns (q: int)
    requires PowerOf2(p) && i % 2 == 1 && c * i == m * p
    ensures c == p * q
    decreases p
  {
    if p == 1 {
      q := c;
    } else {
      HalfOfBoth(p, c, i, m);
      q := OddDoesNotHelp(p / 2, c / 2, i, m);
      Twice(p, c, q);
    }
  }

  lemma HalfOfBoth(p: int, c: int, i: int, m: int)
    requires p % 2 == 0 && i % 2 == 1 && c * i == m * p
    ensures c % 2 == 0 && c / 2 * i == m * (p / 2)
  {
    var h, b := p / 2, c / 2;
    assert m * p == 2 * (m * h);
    if c % 2 == 1 {
      OddTimesOdd(c, i);
    }
    assert c * i == (2 * b + c % 2) * i == 2 * (b * i) + c % 2 * i;
  }

  lemma Twice(p: int, c: int, q: int)
    requires p % 2 == 0 && c % 2 == 0 && c / 2 == p / 2 * q
    ensures c == p * q
  {
    var h := p / 2;
    assert p * q == 2 * h * q == 2 * (h * q);
  }

  lemma OddTimesOdd(c: int, i: int)
    requires c % 2 == 1 && i % 2 == 1
    ensures c * i % 2 == 1
  {
    var a, b := c / 2, i / 2;
    assert c * i == 2 * (2 * a * b + a + b) + 1;
  }

  /** `c` cylinders of `spc` sectors are a whole number of blocks of `nspb` sectors. */
  predicate Whole(c: int, spc: int, nspb: int)
    requires nspb > 0
  {
    c * spc % nspb == 0
  }

  /** `cpc` is the least number of cylinders that is a whole number of blocks, and `i` that number of blocks. */
  ghost predicate LeastCycle(cpc: int, i: int, spc: int, nspb: int) {
    && nspb > 0 && cpc > 0 && cpc * spc == nspb * i
    && forall c :: c > 0 && Whole(c, spc, nspb) ==> cpc <= c
  }

  /** What the loops keep: `cpc` cylinders are `i` blocks, and no factor of two can be taken out of both. */
  ghost predicate Cycle(cpc: int, i: int, spc: int, nspb: int) {
    PowerOf2(nspb) && PowerOf2(cpc) && cpc <= nspb && cpc * spc == nspb * i && (cpc == 1 || i % 2 == 1)
  }

  lemma CycleIsLeast(cpc: int, i: int, spc: int, nspb: int)
    requires Cycle(cpc, i, spc, nspb)
    ensures LeastCycle(cpc, i, spc, nspb)
  {
    forall c | c > 0 && Whole(c, spc, nspb) ensures cpc <= c {
      if cpc > 1 {
        var m := c * spc / nspb;
        assert c * spc == nspb * m;
        Cancel(c, i, m, cpc, spc, nspb);
        var q := OddDoesNotHelp(cpc, c, i, m);
        assert q <= 0 ==> cpc * q <= 0;
        assert q >= 1 ==> cpc * q >= cpc;
      }
    }
  }

  lemma Cancel(c: int, i: int, m: int, cpc: int, spc: int, nspb: int)
    requires c * spc == nspb * m && cpc * spc == nspb * i && nspb > 0
    ensures c * i == m * cpc
  {
    assert nspb * (c * i) == c * (nspb * i) == c * (cpc * spc);
    assert c * (cpc * spc) == cpc * (c * spc) == cpc * (nspb * m) == nspb * (m * cpc);
    var x := c * i - m * cpc;
    assert nspb * x == 0;
    assert x >= 1 ==> nspb * x >= nspb;
    assert x <= -1 ==> nspb * x <= -nspb;
  }

  /** The halving loop. */
  method MinimumCycle(spc: int, nspb: int) returns (cpc: int, i: int)
    requires spc > 0 && PowerOf2(nspb)
    ensures Cycle(cpc, i, spc, nspb) && LeastCycle(cpc, i, spc, nspb)
  {
    cpc, i := nspb, spc;
    while cpc > 1 && i % 2 == 0
      invariant PowerOf2(cpc) && cpc <= nspb && cpc * spc == nspb * i
      decreases cpc
    {
      Halve(cpc, spc, nspb, i);
      cpc := cpc / 2;
      i := i / 2;
    }
    CycleIsLeast(cpc, i, spc, nspb);
  }

  lemma Halve(cpc: int, spc: int, nspb: int, i: int)
    requires cpc * spc == nspb * i && cpc % 2 == 0 && i % 2 == 0
    ensures cpc / 2 * spc == nspb * (i / 2)
  {
    var a, b := cpc / 2, i / 2;
    assert 2 * (a * spc) == cpc * spc && 2 * (nspb * b) == nspb * i;
  }

  // ---------------------------------------------------------------- the superblock fields

  const MAXBSIZE := 65536
  const MINBSIZE := 4096
  const MAXFRAG := 8

  lemma {:induction false} Pow2Is(k: nat)
    ensures PowerOf2(Pow2(k))
  {
    if k > 0 {
      Pow2Is(k - 1);
    }
  }

  /** A cylinder group of `cpg` cylinders and `ipg` inodes, and its blocks and fragments. */
  datatype Shape = Shape(bsize: int, fsize: int, frag: int, fragshift: int, nspf: int, cpg: int, ipg: int)

  datatype Outcome = Exit(code: int) | Crash | Done(fpg: int)

  /** The blocks and fragments fit together, and `mincpc` cylinders are `i` blocks. */
  ghost predicate Aligned(s: Shape, spc: int, mincpc: int, i: int) {
    && s.fsize > 0 && s.bsize == s.frag * s.fsize && s.fragshift >= 0 && s.frag == Pow2(s.fragshift)
    && PowerOf2(s.frag) && PowerOf2(s.nspf) && Cycle(mincpc, i, spc, s.nspf * s.frag)
  }

  /** `NSPB`. */
  function BlockSectors(s: Shape): int
    requires s.fragshift >= 0
  {
    s.nspf * Pow2(s.fragshift)
  }

  /** The block size doubles: the fragments in a block do, and so do the sectors in it. */
  function Doubled(s: Shape): Shape {
    s.(bsize := s.bsize * 2, frag := s.frag * 2, fragshift := s.fragshift + 1)
  }

  /** The fragment size doubles: the block keeps its size. */
  function Coarser(s: Shape): Shape {
    s.(frag := s.frag / 2, fragshift := s.fragshift - 1, fsize := s.fsize * 2, nspf := s.nspf * 2)
  }

  /** The block size is halved again. */
  function Halved(s: Shape): Shape {
    s.(bsize := s.bsize / 2, frag := s.frag / 2, fragshift := s.fragshift - 1)
  }

  lemma CycleDoubles(cpc: int, i: int, spc: int, nspb: int)
    requires Cycle(cpc, i, spc, nspb)
    ensures i % 2 == 0 ==> Cycle(cpc, i / 2, spc, 2 * nspb)
    ensures i % 2 == 1 ==> Cycle(2 * cpc, i, spc, 2 * nspb)
  {
    DoublePower(nspb);
    DoublePower(cpc);
    Distribute(2, nspb, i / 2);
    Distribute(2, nspb, i);
    Distribute(2, cpc, spc);
  }

  lemma DoublePower(n: int)
    requires PowerOf2(n)
    ensures PowerOf2(2 * n)
  {
  }

  lemma Distribute(a: int, b: int, c: int)
    ensures a * b * c == b * (a * c) == a * (b * c)
  {
  }

  lemma CycleHalves(cpc: int, i: int, spc: int, nspb: int)
    requires Cycle(2 * cpc, i, spc, 2 * nspb) && PowerOf2(nspb) && cpc > 0
    ensures Cycle(cpc, i, spc, nspb)
  {
    assert 2 * cpc * spc == 2 * (cpc * spc);
    assert 2 * nspb * i == 2 * (nspb * i);
  }

  lemma DoubledAligned(s: Shape, spc: int, mincpc: int, i: int)
    requires Aligned(s, spc, mincpc, i)
    ensures i % 2 == 0 ==> Aligned(Doubled(s), spc, mincpc, i / 2)
    ensures i % 2 == 1 ==> Aligned(Doubled(s), spc, 2 * mincpc, i)
  {
    hide Cycle;
    CycleDoubles(mincpc, i, spc, s.nspf * s.frag);
    assert s.nspf * (s.frag * 2) == 2 * (s.nspf * s.frag);
    assert s.frag * 2 * s.fsize == s.frag * s.fsize * 2;
  }

  lemma CoarserAligned(s: Shape, spc: int, mincpc: int, i: int)
    requires Aligned(s, spc, mincpc, i) && s.frag > 1
    ensures Aligned(Coarser(s), spc, mincpc, i) && Coarser(s).bsize == s.bsize
  {
    var h := s.frag / 2;
    assert s.nspf * 2 * h == s.nspf * s.frag;
    assert h * (s.fsize * 2) == s.frag * s.fsize;
  }

  lemma HalvedAligned(s: Shape, spc: int, mincpc: int, i: int)
    requires Aligned(s, spc, mincpc, i) && s.frag > 1 && mincpc > 1
    ensures Aligned(Halved(s), spc, mincpc / 2, i) && s.bsize % 2 == 0
  {
    hide Cycle;
    var h, n, c := s.frag / 2, s.nspf * (s.frag / 2), mincpc / 2;
    CyclePositive(mincpc, i, spc, s.nspf * s.frag);
    assert s.nspf * s.frag == 2 * n;
    assert s.frag * s.fsize == 2 * (h * s.fsize);
    PowersMultiply(s.nspf, h);
    CycleHalves(c, i, spc, n);
  }

  class Superblock {
    const spc: int
    const inopb: int
    const mincpgcnt: int
    const cgsize: Shape -> int
    const calcipg: (int, int, int) -> int
    var s: Shape
    var cpc: int

    constructor (spc: int, inopb: int, mincpgcnt: int, cgsize: Shape -> int,
                 calcipg: (int, int, int) -> int, s: Shape)
      ensures this.spc == spc && this.inopb == inopb && this.mincpgcnt == mincpgcnt && this.s == s
      ensures this.cgsize == cgsize && this.calcipg == calcipg
    {
      this.spc, this.inopb, this.mincpgcnt := spc, inopb, mincpgcnt;
      this.cgsize, this.calcipg, this.s, this.cpc := cgsize, calcipg, s, 0;
    }

    /** `s` with a group of `cpg` cylinders and the inodes that `calcipg` gives it. */
    function Group(s: Shape, cpg: int): Shape {
      s.(cpg := cpg, ipg := calcipg(s.fragshift, s.nspf, cpg))
    }

    /** The number of inodes that no group may exceed (`MAXIPG`). */
    function MaxIpg(bsize: int): int
      requires inopb > 0
    {
      RoundUp(bsize * 8 / 3, inopb)
    }

    predicate InodesFit(s: Shape, cpg: int)
      requires inopb > 0
    {
      Group(s, cpg).ipg <= MaxIpg(s.bsize)
    }

    predicate HeaderFits(s: Shape, cpg: int) {
      cgsize(Group(s, cpg)) <= s.bsize
    }

    /** The most cycles, up to `k`, that do not have too many inodes; 0 if there are none. */
    function InodeCycles(s: Shape, mincpc: int, k: nat): (m: nat)
      requires inopb > 0
      ensures m <= k && (m > 0 ==> InodesFit(s, m * mincpc))
      ensures forall j :: m < j <= k ==> !InodesFit(s, j * mincpc)
    {
      if k == 0 || InodesFit(s, k * mincpc) then k else InodeCycles(s, mincpc, k - 1)
    }

    /** The most cycles, up to `k`, whose header fits a block; 0 if there are none. */
    function HeaderCycles(s: Shape, mincpc: int, k: nat): (n: nat)
      ensures n <= k && (n > 0 ==> HeaderFits(s, n * mincpc))
      ensures forall j :: n < j <= k ==> !HeaderFits(s, j * mincpc)
    {
      if k == 0 || HeaderFits(s, k * mincpc) then k else HeaderCycles(s, mincpc, k - 1)
    }

    /** The cycles that are left of a group that was to have `k` of them. */
    function CyclesLeft(s: Shape, mincpc: int, k: nat): (n: nat)
      requires inopb > 0
      ensures n <= k
    {
      HeaderCycles(s, mincpc, InodeCycles(s, mincpc, k))
    }

    /** In the words of the loops: the first one ends at the largest number of cycles without too many inodes,
        the second one at the largest of those whose header fits a block. */
    lemma CyclesLeftIs(s: Shape, mincpc: int, k: nat, n: nat)
      requires inopb > 0 && n == CyclesLeft(s, mincpc, k)
      ensures n > 0 ==> cgsize(Group(s, n * mincpc)) <= s.bsize
      ensures var m := InodeCycles(s, mincpc, k);
        && n <= m <= k && (m > 0 ==> calcipg(s.fragshift, s.nspf, m * mincpc) <= MaxIpg(s.bsize))
        && (forall j :: m < j <= k ==> calcipg(s.fragshift, s.nspf, j * mincpc) > MaxIpg(s.bsize))
        && (forall j :: n < j <= m ==> cgsize(Group(s, j * mincpc)) > s.bsize)
    {
      var m := InodeCycles(s, mincpc, k);
      forall j | m < j <= k ensures calcipg(s.fragshift, s.nspf, j * mincpc) > MaxIpg(s.bsize) {
        assert !InodesFit(s, j * mincpc);
      }
      forall j | n < j <= m ensures cgsize(Group(s, j * mincpc)) > s.bsize {
        assert !HeaderFits(s, j * mincpc);
      }
    }

    /** Blocks of 8 KB with 64 inodes each allow 21888 inodes in a group, blocks of 4 KB with 32 allow 10944. */
    lemma MostInodes()
      ensures inopb == 64 ==> MaxIpg(8192) == 21888
      ensures inopb == 32 ==> MaxIpg(4096) == 10944
    {
    }

    /** Enlarge the blocks, then the fragments, until a group's header fits a block. */
    method FitBlockMaps(mincpc0: int, i0: int)
      returns (code: int, mincpc: int, mincpg: int, i: int, cramped: bool)
      requires Aligned(s, spc, mincpc0, i0) && cpc == mincpc0 && s.cpg == RoundUp(mincpgcnt, mincpc0)
      modifies this
      ensures cramped <==> old(cgsize(s)) > old(s.bsize)
      ensures !cramped ==> code == 0 && s == old(s) && mincpc == mincpc0 && i == i0
      ensures code == 0 || code == 22
      ensures code == 0 ==> Aligned(s, spc, mincpc, i) && cgsize(s) <= s.bsize && cpc == mincpc
      ensures code == 0 ==> s.cpg == mincpg == RoundUp(mincpgcnt, mincpc)
      ensures code == 22 ==> s.bsize >= 65536 && s.fsize == s.bsize
    {
      hide RoundUp, Pow2;
      code, mincpc, i, cramped := 0, mincpc0, i0, false;
      mincpg := s.cpg;
      while cgsize(s) > s.bsize
        invariant Aligned(s, spc, mincpc, i) && cpc == mincpc && s.cpg == mincpg == RoundUp(mincpgcnt, mincpc)
        invariant cramped ==> old(cgsize(s)) > old(s.bsize)
        invariant !cramped ==> s == old(s) && mincpc == mincpc0 && i == i0
        decreases if s.bsize < MAXBSIZE then MAXBSIZE - s.bsize else 0, s.frag
      {
        hide Cycle;
        cramped := true;
        if s.bsize < MAXBSIZE {
          DoubledAligned(s, spc, mincpc, i);
          var cpg := s.cpg;
          if i % 2 == 0 {
            i := i / 2;
          } else {
            CyclePositive(mincpc, i, spc, s.nspf * s.frag);
            cpc := 2 * cpc;
            mincpc := 2 * mincpc;
            mincpg := RoundUp(mincpgcnt, mincpc);
            cpg := mincpg;
          }
          s := Doubled(s).(cpg := cpg);
          if s.frag <= MAXFRAG {
            continue;
          }
        }
        FragmentsOfBlock(s.frag, s.fsize);
        if s.fsize == s.bsize {
          code := 22;
          return;
        }
        CoarserAligned(s, spc, mincpc, i);
        s := Coarser(s);
      }
    }

    /** Make the blocks smaller until a group of the least size has no more inodes than it may have.  The
        result `usable` says that the fields still fit together. */
    method FitInodes(mincpc0: int, mincpg0: int, ghost i: int)
      returns (mincpc: int, mincpg: int, cramped: bool, ghost usable: bool)
      requires Aligned(s, spc, mincpc0, i) && s.cpg == mincpg0 && inopb > 0
      modifies this`s
      ensures cramped <==> Group(old(s), mincpg0).ipg > MaxIpg(old(s.bsize))
      ensures !cramped ==> usable && s == Group(old(s), mincpg0) && mincpc == mincpc0 && mincpg == mincpg0
      ensures usable ==> Aligned(s, spc, mincpc, i)
    {
      mincpc, mincpg, cramped, usable := mincpc0, mincpg0, false, true;
      s := Group(s, mincpg);
      var inospercg := s.ipg;
      while inospercg > MaxIpg(s.bsize)
        invariant usable && Aligned(s, spc, mincpc, i) && s.ipg == inospercg
        invariant cramped ==> Group(old(s), mincpg0).ipg > MaxIpg(old(s.bsize))
        invariant !cramped ==> s == Group(old(s), mincpg0)
        invariant !cramped ==> mincpc == mincpc0 && mincpg == mincpg0
        decreases s.frag
      {
        hide Cycle;
        cramped := true;
        if mincpc == 1 || s.frag == 1 || s.bsize == MINBSIZE {
          break;
        }
        CyclePositive(mincpc, i, spc, s.nspf * s.frag);
        HalvedAligned(s, spc, mincpc, i);
        s := Halved(s);
        mincpc := mincpc / 2;
        CyclePositive(mincpc, i, spc, s.nspf * s.frag);
        s := s.(cpg := RoundUp(mincpgcnt, mincpc));
        if cgsize(s) > s.bsize {
          s := s.(bsize := s.bsize * 2);
          usable := false;
          break;
        }
        mincpg := s.cpg;
        s := Group(s, mincpg);
        inospercg := s.ipg;
      }
    }

    /** Shrink the group, `mincpc` cylinders at a time, first until its inodes fit and then until its header
        fits.  When no cylinder is left, `calcipg` divides by zero.  `k` counts the cycles at the start, `m`
        those after the first loop, `n` those that are left. */
    method FitGroup(mincpc: int, ghost k: nat)
      returns (crash: bool, inodecramped: bool, mapcramped: bool, ghost m: nat, ghost n: nat)
      requires mincpc > 0 && k > 0 && s.cpg == k * mincpc && inopb > 0
      modifies this`s
      ensures m == InodeCycles(old(s), mincpc, k) && n == CyclesLeft(old(s), mincpc, k)
      ensures n <= m <= k && (crash <==> n == 0) && s.bsize == old(s.bsize)
      ensures !crash ==> s == Group(old(s), n * mincpc) && HeaderFits(old(s), n * mincpc)
      ensures (inodecramped <==> m < k) && (mapcramped <==> n < m)
    {
      hide RoundUp;
      ghost var s0 := s;
      crash, inodecramped, mapcramped, m := false, false, false, k;
      s := Group(s, s.cpg);
      while s.ipg > MaxIpg(s.bsize)
        invariant 0 < m <= k && s == Group(s0, m * mincpc) && (inodecramped <==> m < k)
        invariant InodeCycles(s0, mincpc, m) == InodeCycles(s0, mincpc, k)
        decreases m
      {
        inodecramped := true;
        OneCycleLess(m, mincpc);
        assert !InodesFit(s0, m * mincpc);
        m := m - 1;
        if s.cpg - mincpc == 0 {
          crash, n := true, 0;
          return;
        }
        s := Group(s, s.cpg - mincpc);
      }
      n := m;
      while cgsize(s) > s.bsize
        invariant 0 < n <= m && s == Group(s0, n * mincpc) && (mapcramped <==> n < m)
        invariant HeaderCycles(s0, mincpc, n) == HeaderCycles(s0, mincpc, m)
        decreases n
      {
        mapcramped := true;
        OneCycleLess(n, mincpc);
        assert !HeaderFits(s0, n * mincpc);
        n := n - 1;
        if s.cpg - mincpc == 0 {
          crash := true;
          return;
        }
        s := Group(s, s.cpg - mincpc);
      }
    }

    /** The number of cycles that hold `cpg` cylinders. */
    function CyclesFor(cpg: int, cycle: int): (k: nat)
      requires cpg > 0 && cycle > 0
      ensures k > 0 && k * cycle == RoundUp(cpg, cycle)
    {
      WholeCycles(cpg, cycle);
      (cpg + cycle - 1) / cycle
    }

    /** The cylinders and inodes that a group had before do not matter. */
    lemma {:induction false} CyclesOf(s: Shape, t: Shape, mincpc: int, k: nat)
      requires inopb > 0 && t == s.(cpg := t.cpg, ipg := t.ipg)
      ensures CyclesLeft(t, mincpc, k) == CyclesLeft(s, mincpc, k)
      ensures forall cpg :: Group(t, cpg) == Group(s, cpg)
    {
      InodeCyclesOf(s, t, mincpc, k);
      HeaderCyclesOf(s, t, mincpc, InodeCycles(s, mincpc, k));
    }

    lemma {:induction false} InodeCyclesOf(s: Shape, t: Shape, mincpc: int, k: nat)
      requires inopb > 0 && t == s.(cpg := t.cpg, ipg := t.ipg)
      ensures InodeCycles(t, mincpc, k) == InodeCycles(s, mincpc, k)
    {
      if k > 0 {
        InodeCyclesOf(s, t, mincpc, k - 1);
      }
    }

    lemma {:induction false} HeaderCyclesOf(s: Shape, t: Shape, mincpc: int, k: nat)
      requires t == s.(cpg := t.cpg, ipg := t.ipg)
      ensures HeaderCycles(t, mincpc, k) == HeaderCycles(s, mincpc, k)
    {
      if k > 0 {
        HeaderCyclesOf(s, t, mincpc, k - 1);
      }
    }

    /** Blocks and fragments need not be changed for a group of the least size. */
    predicate Roomy(s: Shape, cycle: int)
      requires inopb > 0 && cycle > 0
    {
      var mincpg := RoundUp(mincpgcnt, cycle);
      cgsize(s.(cpg := mincpg)) <= s.bsize && InodesFit(s, mincpg)
    }

    /** What becomes of a group for which `cpg` cylinders are asked.  Of the `k` cycles that hold them `n` are
        left, and these decide. */
    ghost predicate Judged(s0: Shape, cpg: int, cpgflg: bool, cycle: int, mincpg: int, r: Outcome)
      requires inopb > 0 && cpg > 0 && cycle > 0
    {
      var k := CyclesFor(cpg, cycle);
      var n := CyclesLeft(s0, cycle, k);
      var enough := n > 0 && n * cycle >= mincpg;
      && (r == Crash <==> n == 0)
      && (r == Exit(25) <==> n > 0 && n * cycle < mincpg)
      && (r == Exit(26) <==> enough && cpgflg && n == k && k * cycle != cpg)
      && (r == Exit(27) <==> enough && cpgflg && n < k && n * cycle != cpg)
      && (r.Done? <==> enough && (cpgflg ==> n * cycle == cpg))
    }

    /** All of it.  `cpg` is the number of cylinders asked for, `cpgflg` says that a user asked; `cycle`
        cylinders are the fewest that are whole blocks. */
    method Plan(cpg: int, cpgflg: bool) returns (r: Outcome, ghost cycle: int, ghost blocks: int)
      requires spc > 0 && inopb > 0 && cpg > 0 && s.fsize > 0 && s.bsize == s.frag * s.fsize
      requires s.fragshift >= 0 && s.frag == Pow2(s.fragshift) && PowerOf2(s.nspf)
      modifies this
      ensures r != Exit(24)
      ensures LeastCycle(cycle, blocks, spc, BlockSectors(old(s)))
      ensures cycle > 0 && (r == Exit(22) || r == Exit(23) <==> !Roomy(old(s), cycle))
      ensures r == Exit(22) || r == Exit(23) <==>
        || cgsize(old(s).(cpg := RoundUp(mincpgcnt, cycle))) > old(s.bsize)
        || calcipg(old(s.fragshift), old(s.nspf), RoundUp(mincpgcnt, cycle)) > MaxIpg(old(s.bsize))
      ensures Roomy(old(s), cycle) ==> Judged(old(s), cpg, cpgflg, cycle, RoundUp(mincpgcnt, cycle), r)
      ensures r.Done? ==> s == Group(old(s), CyclesLeft(old(s), cycle, CyclesFor(cpg, cycle)) * cycle)
      ensures r.Done? ==> cgsize(s) <= s.bsize && r.fpg * s.nspf == s.cpg * spc && r.fpg % s.frag == 0
    {
      hide LeastCycle, PowerOf2, Pow2, RoundUp, MaxIpg, CyclesLeft;
      Pow2Is(s.fragshift);
      PowersMultiply(s.nspf, s.frag);
      var mincpc, i := MinimumCycle(spc, BlockSectors(s));
      cycle, blocks := mincpc, i;
      CyclePositive(mincpc, i, spc, BlockSectors(s));
      cpc := mincpc;
      var mincpg := RoundUp(mincpgcnt, mincpc);
      s := s.(cpg := mincpg);
      var code, mapcramped, inodecramped;
      code, mincpc, mincpg, i, mapcramped := FitBlockMaps(mincpc, i);
      if code != 0 {
        return Exit(code), cycle, blocks;
      }
      ghost var usable;
      mincpc, mincpg, inodecramped, usable := FitInodes(mincpc, mincpg, i);
      if inodecramped || mapcramped {
        return Exit(23), cycle, blocks;
      }
      CyclesOf(old(s), s, mincpc, CyclesFor(cpg, mincpc));
      r := Cylinders(cpg, cpgflg, mincpc, mincpg, i);
    }

    /** Calculate the cylinders of a group, from those asked for. */
    method Cylinders(cpg: int, cpgflg: bool, mincpc: int, mincpg: int, ghost i: int) returns (r: Outcome)
      requires inopb > 0 && cpg > 0 && mincpc > 0 && Aligned(s, spc, mincpc, i)
      modifies this`s
      ensures Judged(old(s), cpg, cpgflg, mincpc, mincpg, r) && !(r.Exit? && r.code < 25)
      ensures r.Done? ==> s == Group(old(s), CyclesLeft(old(s), mincpc, CyclesFor(cpg, mincpc)) * mincpc)
      ensures r.Done? ==> cgsize(s) <= s.bsize && r.fpg * s.nspf == s.cpg * spc && r.fpg % s.frag == 0
    {
      hide PowerOf2, Pow2, RoundUp, MaxIpg, CyclesLeft, InodeCycles, CyclesFor, Judged, Cycle, HeaderFits;
      ghost var s0, k := s, CyclesFor(cpg, mincpc);
      RoundedIs(cpg, mincpc);
      var asked := cpg;
      s := s.(cpg := cpg);
      if s.cpg % mincpc != 0 {
        s := s.(cpg := RoundUp(s.cpg, mincpc));
        if !cpgflg {
          asked := s.cpg;
        }
      }
      CyclesOf(s0, s, mincpc, k);
      ghost var t := s;
      var crash, inodecramped, mapcramped;
      ghost var m, n;
      crash, inodecramped, mapcramped, m, n := FitGroup(mincpc, k);
      if crash {
        NoneLeft(s0, cpg, cpgflg, mincpc, mincpg);
        return Crash;
      }
      FitsHeader(t, n * mincpc);
      r := Judge(mincpc, mincpg, asked, cpgflg, mapcramped || inodecramped, n, i);
      IsJudged(s0, cpg, cpgflg, mincpc, mincpg, asked, n * mincpc, r);
    }

    lemma FitsHeader(s: Shape, cpg: int)
      requires HeaderFits(s, cpg)
      ensures cgsize(Group(s, cpg)) <= s.bsize && Group(s, cpg).bsize == s.bsize
    {
    }

    lemma RoundedIs(cpg: int, cycle: int)
      requires cpg > 0 && cycle > 0
      ensures CyclesFor(cpg, cycle) * cycle == RoundUp(cpg, cycle)
      ensures cpg % cycle == 0 <==> RoundUp(cpg, cycle) == cpg
    {
      WholeCycles(cpg, cycle);
      var k := CyclesFor(cpg, cycle);
      if k * cycle == cpg {
        MultipleOf(k, cycle);
      }
    }

    lemma NoneLeft(s0: Shape, cpg: int, cpgflg: bool, cycle: int, mincpg: int)
      requires inopb > 0 && cpg > 0 && cycle > 0 && CyclesLeft(s0, cycle, CyclesFor(cpg, cycle)) == 0
      ensures Judged(s0, cpg, cpgflg, cycle, mincpg, Crash)
    {
      hide CyclesLeft, CyclesFor;
    }

    /** The verdict on the cylinders that are left, `got` of the `asked` ones. */
    predicate Verdict(got: int, mincpg: int, asked: int, cpgflg: bool, cramped: bool, r: Outcome) {
      if got < mincpg then r == Exit(25)
      else if got != asked && cpgflg then r == Exit(if cramped then 27 else 26)
      else r.Done?
    }

    lemma IsJudged(s0: Shape, cpg: int, cpgflg: bool, cycle: int, mincpg: int, asked: int, got: int, r: Outcome)
      requires inopb > 0 && cpg > 0 && cycle > 0
      requires var k := CyclesFor(cpg, cycle);
        var n := CyclesLeft(s0, cycle, k);
        && n > 0 && got == n * cycle && (cpgflg ==> asked == cpg)
        && Verdict(got, mincpg, asked, cpgflg, n < k, r)
      ensures Judged(s0, cpg, cpgflg, cycle, mincpg, r)
    {
      hide CyclesLeft, CyclesFor;
    }

    /** Compare the group with what was asked for. */
    method Judge(mincpc: int, mincpg: int, asked: int, cpgflg: bool, cramped: bool, ghost n: int, ghost i: int)
      returns (r: Outcome)
      requires Aligned(s, spc, mincpc, i) && s.cpg == n * mincpc
      ensures Verdict(s.cpg, mincpg, asked, cpgflg, cramped, r)
      ensures r.Done? ==> r.fpg * s.nspf == s.cpg * spc && r.fpg % s.frag == 0
    {
      hide PowerOf2, Pow2;
      SizesPositive(s, spc, mincpc, i);
      GroupOfBlocks(s.cpg, n, mincpc, i, spc, s.nspf, s.frag);
      var fpg := s.cpg * spc / s.nspf;
      assert BlockSectors(s) == s.nspf * s.frag;
      r := Done(fpg);
      if s.cpg * spc % BlockSectors(s) != 0 {
        r := Exit(24);
      } else if s.cpg < mincpg {
        r := Exit(25);
      } else if s.cpg != asked {
        if cpgflg && !cramped {
          r := Exit(26);
        } else if cpgflg {
          r := Exit(27);
        }
      }
    }
  }

  lemma SizesPositive(s: Shape, spc: int, mincpc: int, i: int)
    requires Aligned(s, spc, mincpc, i)
    ensures s.nspf > 0 && s.frag > 0
  {
  }

  /** The powers of two are 1, 2, 4 and so on. */
  lemma {:induction false} PowersAre(n: int)
    ensures PowerOf2(n) <==> exists k: nat :: Pow2(k) == n
    decreases n
  {
    if n > 1 && n % 2 == 0 {
      PowersAre(n / 2);
      if PowerOf2(n / 2) {
        var k: nat :| Pow2(k) == n / 2;
        assert Pow2(k + 1) == n;
      }
    }
    if n == 1 {
      assert Pow2(0) == n;
    }
    if k: nat :| Pow2(k) == n {
      assert k > 0 ==> Pow2(k) == 2 * Pow2(k - 1);
      assert n > 1 ==> Pow2(k - 1) == n / 2;
    }
  }

  /** Exactly the multiples of the cycle are whole blocks. */
  lemma WholeExactly(cpc: int, i: int, spc: int, nspb: int, c: int)
    requires Cycle(cpc, i, spc, nspb) && c > 0
    ensures c * spc % nspb == 0 <==> c % cpc == 0
    ensures nspb > 0 && (Whole(c, spc, nspb) <==> c % cpc == 0)
  {
    CyclePositive(cpc, i, spc, nspb);
    BlockPositive(nspb);
    if c * spc % nspb == 0 {
      if cpc > 1 {
        var m := c * spc / nspb;
        assert c * spc == nspb * m;
        Cancel(c, i, m, cpc, spc, nspb);
        var q := OddDoesNotHelp(cpc, c, i, m);
        MultipleOf(q, cpc);
      }
    }
    if c % cpc == 0 {
      var q := c / cpc;
      assert c == q * cpc;
      assert c * spc == q * (cpc * spc) == q * (nspb * i) == nspb * (q * i);
      MultipleOf(q * i, nspb);
    }
  }

  lemma BlockPositive(nspb: int)
    requires PowerOf2(nspb)
    ensures nspb > 0
  {
  }

  /** Blocks of 16 sectors: cylinders of 1008 sectors are 63 blocks, two of 600 sectors 75, 16 of 63 sectors 63. */
  lemma Cycles()
    ensures Cycle(1, 63, 1008, 16) && Cycle(2, 75, 600, 16) && Cycle(16, 63, 63, 16)
    ensures !Cycle(1, 37, 600, 16) && !Cycle(4, 150, 600, 16)
    ensures LeastCycle(2, 75, 600, 16) && !LeastCycle(4, 150, 600, 16) && !LeastCycle(2, 126, 1008, 16)
    ensures BlockSectors(Shape(8192, 1024, 8, 3, 2, 16, 64)) == 16
  {
    assert PowerOf2(2) && PowerOf2(4) && PowerOf2(8) && PowerOf2(16);
    assert Pow2(3) == 8;
    CycleIsLeast(2, 75, 600, 16);
    assert Whole(2, 600, 16) && Whole(1, 1008, 16);
  }

  /** The limits of the loops. */
  lemma Limits()
    ensures MAXBSIZE == 65536 && MINBSIZE == 4096 && MAXFRAG == 8
  {
  }

  /** Rounding up gives whole cycles, and changes nothing when there are whole cycles already. */
  lemma WholeCycles(cpg: int, mincpc: int)
    requires cpg > 0 && mincpc > 0
    ensures var k := (cpg + mincpc - 1) / mincpc; k > 0 && RoundUp(cpg, mincpc) == k * mincpc
    ensures cpg % mincpc == 0 ==> RoundUp(cpg, mincpc) == cpg
  {
    var k, q := (cpg + mincpc - 1) / mincpc, cpg / mincpc;
    assert k <= 0 ==> k * mincpc <= 0;
    var e := k - q;
    assert cpg % mincpc == 0 ==> e * mincpc == k * mincpc - q * mincpc;
    assert e >= 1 ==> e * mincpc >= mincpc;
    assert e <= -1 ==> e * mincpc <= -mincpc;
  }

  lemma OneCycleLess(k: int, m: int)
    ensures (k - 1) * m == k * m - m
    ensures m > 0 && k * m - m == 0 ==> k == 1
  {
    assert m > 0 && k >= 2 ==> (k - 1) * m >= m;
    assert m > 0 && k <= 0 ==> (k - 1) * m <= -m;
  }

  /** A group of whole cycles is a whole number of blocks: the panic cannot happen. */
  lemma GroupOfBlocks(cpg: int, n: int, mincpc: int, i: int, spc: int, nspf: int, frag: int)
    requires cpg == n * mincpc && mincpc * spc == nspf * frag * i && nspf > 0 && frag > 0
    ensures cpg * spc % (nspf * frag) == 0
    ensures var fpg := cpg * spc / nspf; fpg * nspf == cpg * spc && fpg % frag == 0
  {
    assert cpg * spc == n * (mincpc * spc) == n * (nspf * frag * i) == nspf * frag * (n * i);
    MultipleOf(n * i, nspf * frag);
    var f := frag * (n * i);
    assert nspf * frag * (n * i) == nspf * f;
    MultipleOf(f, nspf);
    MultipleOf(n * i, frag);
  }

  lemma MultipleOf(q: int, m: int)
    requires m > 0
    ensures m * q % m == 0 && m * q / m == q
  {
    var d, r := m * q / m, m * q % m;
    var e := q - d;
    assert m * e == r;
    assert e >= 1 ==> m * e >= m;
    assert e <= -1 ==> m * e <= -m;
  }

  lemma FragmentsOfBlock(frag: int, fsize: int)
    requires frag > 0 && fsize > 0
    ensures frag * fsize == fsize <==> frag == 1
  {
    var k := frag - 1;
    assert frag * fsize == fsize + k * fsize;
    assert k >= 1 ==> k * fsize >= fsize;
  }

  lemma CyclePositive(cpc: int, i: int, spc: int, nspb: int)
    requires Cycle(cpc, i, spc, nspb)
    ensures cpc > 0 && (cpc > 1 ==> cpc % 2 == 0 && i % 2 == 1)
  {
  }
}
