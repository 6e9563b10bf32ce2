/** What the counters of a cylinder group count, read off its packed bitmaps alone. */
module CgCounters {
  import opened BlockMap
  import opened CgSpec
  import opened CylGroups
  import Runs

  // ---------------------------------------------------------------- sums and sizes of sets

  /** The numbers from `a` up to `b` that satisfy `p`. */
  function Between(p: int -> bool, a: int, b: int): set<int> {
    set d | a <= d < b && p(d)
  }

  lemma BetweenNext(p: int -> bool, a: int, b: int)
    requires a <= b
    ensures |Between(p, a, b + 1)| == |Between(p, a, b)| + if p(b) then 1 else 0
    ensures Between(p, a, a) == {}
  {
    var s := Between(p, a, b);
    assert Between(p, a, b + 1) == if p(b) then s + {b} else s;
  }

  lemma {:induction false} BetweenSplits(p: int -> bool, a: int, b: int, c: int)
    requires a <= b <= c
    ensures |Between(p, a, c)| == |Between(p, a, b)| + |Between(p, b, c)|
    decreases c - b
  {
    hide Between;
    if b < c {
      BetweenNext(p, a, c - 1);
      BetweenNext(p, b, c - 1);
      BetweenSplits(p, a, b, c - 1);
    } else {
      BetweenNext(p, b, c);
    }
  }

  /** When each block adds as much as there are numbers of its own, the sum is how many there are. */
  lemma {:induction false} SumIs(g: Geom, w: Weight, bs: seq<seq<bool>>, n: nat, m: nat, p: int -> bool)
    requires g.Valid() && n <= |bs| <= g.Blocks()
    requires forall h :: 0 <= h < n ==> WeightOf(g, w, h, bs[h]) == |Between(p, h * m, h * m + m)|
    ensures Sum(g, w, bs, n) == |Between(p, 0, n * m)|
  {
    hide Between, WeightOf;
    if n == 0 {
      BetweenNext(p, 0, 0);
    } else {
      SumIs(g, w, bs, n - 1, m, p);
      Stretch(n - 1, m);
      BetweenSplits(p, 0, (n - 1) * m, n * m);
      assert WeightOf(g, w, n - 1, bs[n - 1]) == |Between(p, (n - 1) * m, (n - 1) * m + m)|;
    }
  }

  lemma Stretch(n: nat, m: nat)
    ensures 0 <= n * m <= (n + 1) * m == n * m + m
  {
  }

  lemma {:induction false} CountIs(b: seq<bool>, p: int -> bool, a: int, n: nat)
    requires n <= |b| && forall i :: 0 <= i < n ==> (b[i] <==> p(a + i))
    ensures Count(b[..n]) == |Between(p, a, a + n)|
  {
    hide Between;
    if n == 0 {
      BetweenNext(p, a, a);
    } else {
      assert b[..n][..n - 1] == b[..n - 1];
      CountIs(b, p, a, n - 1);
      BetweenNext(p, a, a + n - 1);
    }
  }

  /** A run of length `k`, or of at least `k` when that is `cap`, ends with bit `i`. */
  predicate RunAt(b: seq<bool>, cap: nat, k: nat, i: nat)
    requires i < |b|
  {
    Runs.RunEnds(b, i + 1) && Runs.Clamp(Runs.RunBefore(b, i + 1), cap) == k
  }

  lemma RunAtIs(b: seq<bool>, cap: nat, k: nat, i: nat)
    requires i < |b| && 1 <= k <= cap
    ensures RunAt(b, cap, k, i) <==>
      && k <= i + 1 && (forall j :: i - k < j <= i ==> b[j])
      && (k <= i && k < cap ==> !b[i - k]) && (i + 1 < |b| ==> !b[i + 1])
  {
    var r := Runs.RunBefore(b, i + 1);
    Runs.RunBeforeIs(b, i + 1);
  }

  lemma {:induction false} RunCountIs(b: seq<bool>, cap: nat, k: nat, p: int -> bool, a: int, n: nat)
    requires n <= |b|
    requires forall i :: 0 <= i < n ==> (RunAt(b, cap, k, i) <==> p(a + i))
    ensures Runs.RunCount(b, cap, k, n) == |Between(p, a, a + n)|
  {
    hide Between, Runs.RunEnds, Runs.RunBefore, Runs.Clamp;
    if n == 0 {
      BetweenNext(p, a, a);
    } else {
      assert RunAt(b, cap, k, n - 1) <==> p(a + (n - 1));
      RunCountIs(b, cap, k, p, a, n - 1);
      BetweenNext(p, a, a + n - 1);
    }
  }

  // ---------------------------------------------------------------- fragments and blocks of a bitmap

  predicate Mapped(g: Geom, free: seq<bv8>) {
    g.Valid() && g.fpg <= 8 * |free|
  }

  /** All fragments of block `h` are free. */
  predicate Whole(g: Geom, free: seq<bv8>, h: int)
    requires Mapped(g, free)
  {
    forall d :: 0 <= d < g.fpg && d / g.frag == h ==> IsSet(free, d)
  }

  /** The last one of exactly `k` free fragments side by side in one block. */
  predicate RunTo(g: Geom, free: seq<bv8>, k: nat, d: int)
    requires Mapped(g, free) && 0 <= d < g.fpg
  {
    && 0 < k <= d % g.frag + 1 && (forall e :: d - k < e <= d ==> IsSet(free, e))
    && (k <= d % g.frag ==> !IsSet(free, d - k))
    && (d % g.frag + 1 < g.frag && d + 1 < g.fpg ==> !IsSet(free, d + 1))
  }

  lemma BlockBits(g: Geom, free: seq<bv8>, h: nat)
    requires Mapped(g, free) && h < g.Blocks()
    ensures |Bits(g, free)[h]| == g.frag && h * g.frag + g.frag <= g.fpg
    ensures forall i :: 0 <= i < g.frag ==> (Bits(g, free)[h][i] <==> IsSet(free, h * g.frag + i))
    ensures AllFree(Bits(g, free)[h]) <==> Whole(g, free, h)
  {
    hide IsSet;
    FirstFragment(g, h);
    var b := Bits(g, free)[h];
    forall i | 0 <= i < g.frag ensures b[i] <==> IsSet(free, h * g.frag + i) {
      assert b[i] == FragmentSet(g.frag, free, g.Blocks(), h, i);
    }
    if Whole(g, free, h) {
      forall i | 0 <= i < g.frag ensures b[i] {
        FragmentsDiffer(g.frag, h, i);
      }
    }
    if AllFree(b) {
      forall d | 0 <= d < g.fpg && d / g.frag == h ensures IsSet(free, d) {
        PlaceInBlock(g.frag, d);
        assert b[d % g.frag];
      }
    }
  }

  lemma PlaceInBlock(m: nat, d: nat)
    requires FragSize(m)
    ensures d / m * m + d % m == d && d % m < m
  {
  }

  lemma Ends(g: Geom)
    requires g.Valid()
    ensures g.Blocks() * g.frag == g.fpg && g.Blocks() * 1 == g.Blocks()
  {
  }

  // ---------------------------------------------------------------- the counters

  /** A count over whole blocks. */
  lemma BlocksCounted(g: Geom, w: Weight, free: seq<bv8>, p: int -> bool)
    requires Mapped(g, free)
    requires forall h :: 0 <= h < g.Blocks() ==> WeightOf(g, w, h, Bits(g, free)[h]) == if p(h) then 1 else 0
    ensures Total(g, w, Bits(g, free)) == |Between(p, 0, g.Blocks())|
  {
    hide WeightOf, Between, BlocksOf, Sum;
    forall h | 0 <= h < g.Blocks() ensures |Between(p, h * 1, h * 1 + 1)| == if p(h) then 1 else 0 {
      BetweenNext(p, h, h);
    }
    SumIs(g, w, Bits(g, free), g.Blocks(), 1, p);
  }

  /** `nbfree` is the number of blocks all of whose fragments are free. */
  lemma FreeBlocksAre(g: Geom, hd: Header)
    requires Sound(g, hd)
    ensures Mapped(g, hd.free)
    ensures hd.cs.nbfree == |set h | 0 <= h < g.fpg / g.frag && Whole(g, hd.free, h)|
  {
    hide IsSet, BlocksOf, Whole, Total;
    var p := h => 0 <= h < g.fpg / g.frag && Whole(g, hd.free, h);
    forall h | 0 <= h < g.Blocks()
      ensures WeightOf(g, FreeBlocks, h, Bits(g, hd.free)[h]) == if p(h) then 1 else 0
    {
      BlockBits(g, hd.free, h);
    }
    BlocksCounted(g, FreeBlocks, hd.free, p);
    assert Between(p, 0, g.Blocks()) == set h | 0 <= h < g.fpg / g.frag && Whole(g, hd.free, h);
  }

  /** `cg_blktot`: how many of them begin in each cylinder; `cg_blks`: and at each rotational position. */
  lemma CylindersAre(g: Geom, hd: Header, c: nat, r: nat)
    requires Sound(g, hd) && c < g.cpg && r < g.nrpos
    ensures Mapped(g, hd.free)
    ensures hd.blktot[c] ==
      |set h | 0 <= h < g.fpg / g.frag && Whole(g, hd.free, h) && h * g.frag * g.nspf / g.spc == c|
    ensures hd.blks[c][r] ==
      |set h | 0 <= h < g.fpg / g.frag && Whole(g, hd.free, h) && h * g.frag * g.nspf / g.spc == c && g.rpos[h] == r|
  {
    hide IsSet, BlocksOf, Whole, Total;
    var p := h => 0 <= h < g.fpg / g.frag && Whole(g, hd.free, h) && h * g.frag * g.nspf / g.spc == c;
    var q := h =>
      0 <= h < g.fpg / g.frag && Whole(g, hd.free, h) && h * g.frag * g.nspf / g.spc == c && g.rpos[h] == r;
    forall h | 0 <= h < g.Blocks()
      ensures WeightOf(g, InCyl(c), h, Bits(g, hd.free)[h]) == if p(h) then 1 else 0
      ensures WeightOf(g, InPos(c, r), h, Bits(g, hd.free)[h]) == if q(h) then 1 else 0
    {
      BlockBits(g, hd.free, h);
    }
    BlocksCounted(g, InCyl(c), hd.free, p);
    BlocksCounted(g, InPos(c, r), hd.free, q);
    assert Between(p, 0, g.Blocks()) ==
      set h | 0 <= h < g.fpg / g.frag && Whole(g, hd.free, h) && h * g.frag * g.nspf / g.spc == c;
    assert Between(q, 0, g.Blocks()) ==
      set h | 0 <= h < g.fpg / g.frag && Whole(g, hd.free, h) && h * g.frag * g.nspf / g.spc == c && g.rpos[h] == r;
  }

  /** `nffree` is the number of free fragments in blocks that are not wholly free. */
  lemma FreeFragmentsAre(g: Geom, hd: Header)
    requires Sound(g, hd)
    ensures Mapped(g, hd.free)
    ensures hd.cs.nffree == |set d | 0 <= d < g.fpg && IsSet(hd.free, d) && !Whole(g, hd.free, d / g.frag)|
  {
    hide IsSet, BlocksOf, Whole, Sum;
    var p := d => 0 <= d < g.fpg && IsSet(hd.free, d) && !Whole(g, hd.free, d / g.frag);
    forall h | 0 <= h < g.Blocks()
      ensures WeightOf(g, FreeFrags, h, Bits(g, hd.free)[h]) == |Between(p, h * g.frag, h * g.frag + g.frag)|
    {
      FragmentsOfBlock(g, hd.free, h, p);
    }
    Ends(g);
    SumIs(g, FreeFrags, Bits(g, hd.free), g.Blocks(), g.frag, p);
    assert Between(p, 0, g.fpg) == set d | 0 <= d < g.fpg && IsSet(hd.free, d) && !Whole(g, hd.free, d / g.frag);
  }

  lemma FragmentsOfBlock(g: Geom, free: seq<bv8>, h: nat, p: int -> bool)
    requires Mapped(g, free) && h < g.Blocks()
    requires forall d :: 0 <= d < g.fpg ==> (p(d) <==> IsSet(free, d) && !Whole(g, free, d / g.frag))
    ensures WeightOf(g, FreeFrags, h, Bits(g, free)[h]) == |Between(p, h * g.frag, h * g.frag + g.frag)|
  {
    hide IsSet, BlocksOf, Whole, AllFree, Between, Runs.Histogram, Count;
    BlockBits(g, free, h);
    var b, a := Bits(g, free)[h], h * g.frag;
    forall i | 0 <= i < |b| ensures p(a + i) <==> b[i] && !AllFree(b) {
      FragmentsDiffer(g.frag, h, i);
    }
    FragmentsOfBits(b, p, a);
  }

  lemma FragmentsOfBits(b: seq<bool>, p: int -> bool, a: int)
    requires forall i :: 0 <= i < |b| ==> (p(a + i) <==> b[i] && !AllFree(b))
    ensures (if AllFree(b) then 0 else Count(b)) == |Between(p, a, a + |b|)|
  {
    hide AllFree, Between, Count;
    if AllFree(b) {
      forall d | a <= d < a + |b| ensures !p(d) {
        assert b[d - a] ==> !p(a + (d - a));
      }
      NoneBetween(p, a, |b|);
    } else {
      CountIs(b, p, a, |b|);
      assert b[..|b|] == b;
    }
  }

  lemma NoneBetween(p: int -> bool, a: int, n: nat)
    requires forall d :: a <= d < a + n ==> !p(d)
    ensures Between(p, a, a + n) == {}
  {
  }

  /** `cg_frsum[k]` is the number of runs of exactly `k` free fragments, short of a block. */
  lemma RunsAre(g: Geom, hd: Header, k: nat)
    requires Sound(g, hd) && 1 <= k < g.frag
    ensures Mapped(g, hd.free)
    ensures hd.frsum[k] == |set d | 0 <= d < g.fpg && RunTo(g, hd.free, k, d)|
  {
    hide IsSet, BlocksOf, RunTo, Sum;
    var p := d => 0 <= d < g.fpg && RunTo(g, hd.free, k, d);
    forall h | 0 <= h < g.Blocks()
      ensures WeightOf(g, RunsOf(k), h, Bits(g, hd.free)[h]) == |Between(p, h * g.frag, h * g.frag + g.frag)|
    {
      RunsOfBlock(g, hd.free, k, h, p);
    }
    Ends(g);
    SumIs(g, RunsOf(k), Bits(g, hd.free), g.Blocks(), g.frag, p);
    assert Between(p, 0, g.fpg) == set d | 0 <= d < g.fpg && RunTo(g, hd.free, k, d);
  }

  lemma RunsOfBlock(g: Geom, free: seq<bv8>, k: nat, h: nat, p: int -> bool)
    requires Mapped(g, free) && h < g.Blocks() && 1 <= k < g.frag
    requires forall d :: 0 <= d < g.fpg ==> (p(d) <==> RunTo(g, free, k, d))
    ensures WeightOf(g, RunsOf(k), h, Bits(g, free)[h]) == |Between(p, h * g.frag, h * g.frag + g.frag)|
  {
    hide IsSet, BlocksOf, RunTo;
    BlockBits(g, free, h);
    var b := Bits(g, free)[h];
    forall i | 0 <= i < g.frag
      ensures RunAt(b, g.frag, k, i) <==> p(h * g.frag + i)
    {
      RunInBlock(g, free, k, h, i);
    }
    RunCountIs(b, g.frag, k, p, h * g.frag, g.frag);
    if AllFree(b) {
      FullBlock(b, k);
    }
  }

  /** A run of a block, by its last fragment. */
  lemma RunInBlock(g: Geom, free: seq<bv8>, k: nat, h: nat, i: nat)
    requires Mapped(g, free) && h < g.Blocks() && i < g.frag && 1 <= k < g.frag
    ensures var b := Bits(g, free)[h];
      && |b| == g.frag && h * g.frag + i < g.fpg
      && (RunAt(b, g.frag, k, i) <==> RunTo(g, free, k, h * g.frag + i))
  {
    hide IsSet, BlocksOf;
    BlockBits(g, free, h);
    FragmentsDiffer(g.frag, h, i);
    var b, a := Bits(g, free)[h], h * g.frag;
    RunAtIs(b, g.frag, k, i);
    if k <= i + 1 {
      SameBits(g, free, b, a, i + 1 - k, i);
    }
  }

  /** Bits of a block are bits of the map. */
  lemma SameBits(g: Geom, free: seq<bv8>, b: seq<bool>, a: nat, lo: nat, i: nat)
    requires Mapped(g, free) && lo <= i < |b| && a + |b| <= g.fpg
    requires forall j :: 0 <= j < |b| ==> (b[j] <==> IsSet(free, a + j))
    ensures (forall j :: lo <= j <= i ==> b[j]) <==> forall e :: a + lo <= e <= a + i ==> IsSet(free, e)
  {
    hide IsSet;
    if forall j :: lo <= j <= i ==> b[j] {
      forall e | a + lo <= e <= a + i ensures IsSet(free, e) {
        assert b[e - a];
      }
    }
  }

  lemma {:induction false} FullBlock(b: seq<bool>, k: nat)
    requires AllFree(b) && k < |b|
    ensures Runs.Histogram(b, |b|, k) == 0
  {
    forall n | 0 < n <= |b| && Runs.RunEnds(b, n) ensures Runs.RunBefore(b, n) != k {
      Runs.RunBeforeIs(b, n);
    }
    NoneCounted(b, k, |b|);
  }

  lemma {:induction false} NoneCounted(b: seq<bool>, k: nat, n: nat)
    requires n <= |b| && k < |b|
    requires forall m :: 0 < m <= |b| && Runs.RunEnds(b, m) ==> Runs.RunBefore(b, m) != k
    ensures Runs.RunCount(b, |b|, k, n) == 0
  {
    if n > 0 {
      NoneCounted(b, k, n - 1);
    }
  }

  /** `nifree` is the number of inodes whose bit is clear. */
  lemma FreeInodesAre(g: Geom, hd: Header)
    requires Sound(g, hd)
    ensures g.ipg <= 8 * |hd.inodes|
    ensures hd.cs.nifree == |set i | 0 <= i < g.ipg && !IsSet(hd.inodes, i)|
  {
    hide IsSet;
    var p := i => 0 <= i < g.ipg && !IsSet(hd.inodes, i);
    ClearInodes(hd.inodes, g.ipg, p, g.ipg);
    assert Between(p, 0, g.ipg) == set i | 0 <= i < g.ipg && !IsSet(hd.inodes, i);
  }

  lemma {:induction false} ClearInodes(used: seq<bv8>, ipg: nat, p: int -> bool, n: nat)
    requires n <= ipg <= 8 * |used| && forall i :: 0 <= i < ipg ==> (p(i) <==> !IsSet(used, i))
    ensures n - UsedInodes(used, n) == |Between(p, 0, n)|
  {
    hide IsSet, Between;
    if n == 0 {
      BetweenNext(p, 0, 0);
    } else {
      ClearInodes(used, ipg, p, n - 1);
      BetweenNext(p, 0, n - 1);
    }
  }

  /** A bit of the cluster map is set exactly when its block is wholly free. */
  lemma ClusterMapIs(g: Geom, hd: Header, h: nat)
    requires Sound(g, hd) && g.contig > 0 && h < g.fpg / g.frag
    ensures Mapped(g, hd.free) && h < 8 * |hd.clusters| && (IsSet(hd.clusters, h) <==> Whole(g, hd.free, h))
  {
    hide IsSet, Whole;
    BlockBits(g, hd.free, h);
  }

  /** The last one of a run of free blocks before block `n`: of exactly `k`, or of `k` or more when `k` is the
      longest that is told apart. */
  predicate ClusterTo(g: Geom, free: seq<bv8>, n: nat, k: nat, h: int)
    requires Mapped(g, free)
  {
    && 0 < k <= h + 1 && (forall j :: h - k < j <= h ==> Whole(g, free, j))
    && (k <= h && k < g.contig ==> !Whole(g, free, h - k)) && (h + 1 < n ==> !Whole(g, free, h + 1))
  }

  /** `cg_clustersum[k]` is the number of runs of free blocks of that length. */
  lemma ClustersAre(g: Geom, c: nat, hd: Header, k: nat)
    requires Fits(g, c) && New(g, c, hd) && 1 <= k <= g.contig
    ensures Mapped(g, hd.free) && |hd.clusterSum| == g.contig + 1 && hd.clusterSum[0] == 0
    ensures hd.clusterSum[k] ==
      |set h | 0 <= h < hd.ndblk / g.frag && ClusterTo(g, hd.free, hd.ndblk / g.frag, k, h)|
  {
    hide IsSet, BlocksOf, Whole, ClusterTo, Runs.Histogram, Agree, ClustersAgree, UsedInodes;
    var n := hd.ndblk / g.frag;
    var list := FreeBlockList(g, Bits(g, hd.free), n);
    var p := h => 0 <= h < n && ClusterTo(g, hd.free, n, k, h);
    forall i | 0 <= i < n
      ensures RunAt(list, g.contig, k, i) <==> p(0 + i)
    {
      ClusterAt(g, hd.free, n, k, i);
    }
    RunCountIs(list, g.contig, k, p, 0, n);
    HistogramIs(list, g.contig, k);
    HistogramIs(list, g.contig, 0);
    NoEmptyRun(list, g.contig, n);
    assert Between(p, 0, n) == set h | 0 <= h < n && ClusterTo(g, hd.free, n, k, h);
  }

  lemma {:induction false} NoEmptyRun(b: seq<bool>, cap: nat, n: nat)
    requires n <= |b| && cap > 0
    ensures Runs.RunCount(b, cap, 0, n) == 0
  {
    if n > 0 {
      NoEmptyRun(b, cap, n - 1);
    }
  }

  lemma HistogramIs(b: seq<bool>, cap: nat, k: nat)
    ensures Runs.Histogram(b, cap, k) == Runs.RunCount(b, cap, k, |b|)
  {
  }

  lemma ClusterAt(g: Geom, free: seq<bv8>, n: nat, k: nat, i: nat)
    requires Mapped(g, free) && i < n <= g.Blocks() && 1 <= k <= g.contig
    ensures var list := FreeBlockList(g, Bits(g, free), n);
      RunAt(list, g.contig, k, i) <==> ClusterTo(g, free, n, k, i)
  {
    hide IsSet, BlocksOf, Whole, AllFree;
    var list := FreeBlockList(g, Bits(g, free), n);
    forall h | 0 <= h < n ensures list[h] <==> Whole(g, free, h) {
      BlockBits(g, free, h);
    }
    RunAtIs(list, g.contig, k, i);
  }

  /** Totals are added up field by field, and blocks are counted in fragments. */
  lemma Totals(a: Csum, b: Csum)
    ensures SumCs([a, b], 2) == Csum(a.ndir + b.ndir, a.nbfree + b.nbfree, a.nifree + b.nifree, a.nffree + b.nffree)
    ensures Freed(8, Csum(1, 2, 3, 4)) == 20
  {
    assert SumCs([a, b], 1) == a && SumCs([a, b], 0) == Csum(0, 0, 0, 0);
  }
}
