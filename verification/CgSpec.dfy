/** What a cylinder group header must say about its blocks: every counter is a sum over the blocks. */
module CgSpec {
  import opened Common
  import opened BlockMap
  import Runs

  /** The superblock fields that shape a cylinder group.  `rpos` gives the rotational position of each
      block; `stagger` is one more than the complement of the cylinder group mask, a power of two. */
  datatype Geom = Geom(
    frag: nat, fpg: nat, cpg: nat, nspf: nat, spc: nat, nrpos: nat, ipg: nat, contig: nat, rpos: seq<nat>,
    size: nat, ncg: nat, sblkno: nat, dblkno: nat, cgoffset: nat, stagger: nat, csFrags: nat)
  {
    /** What `mkfs` has established before the first group is built. */
    predicate Valid() {
      && FragSize(frag) && fpg % frag == 0 && spc > 0 && nspf > 0 && fpg * nspf <= cpg * spc
      && |rpos| == fpg / frag && (forall h :: 0 <= h < |rpos| ==> rpos[h] < nrpos)
      && ncg > 0 && stagger > 0
      && sblkno % frag == 0 && dblkno % frag == 0 && cgoffset % frag == 0 && sblkno <= dblkno
    }

    function Blocks(): nat
      requires Valid()
    {
      fpg / frag
    }

    /** The cylinder of block `h` (`cbtocylno` of its first fragment). */
    function Cyl(h: nat): nat
      requires Valid()
    {
      h * frag * nspf / spc
    }
  }

  lemma FirstFragment(g: Geom, h: nat)
    requires g.Valid() && h < g.Blocks()
    ensures h * g.frag + g.frag <= g.fpg
  {
  }

  lemma CylInRange(g: Geom, h: nat)
    requires g.Valid() && h < g.Blocks()
    ensures g.Cyl(h) < g.cpg
  {
    FirstFragment(g, h);
    TimesBelow(h * g.frag, g.fpg, g.nspf);
    QuotientBelow(h * g.frag * g.nspf, g.cpg, g.spc);
  }

  // ---------------------------------------------------------------- counters as sums over the blocks

  predicate AllFree(b: seq<bool>) {
    forall i :: 0 <= i < |b| ==> b[i]
  }

  function Count(b: seq<bool>): (n: nat)
    ensures n <= |b|
  {
    if b == [] then 0
    else
      var last := if b[|b| - 1] then 1 else 0;
      Count(b[..|b| - 1]) + last
  }

  /** What is counted: free blocks, fragments of partly free blocks, runs of `k` free fragments in partly
      free blocks, free blocks of a cylinder, those at a rotational position of it, free fragments. */
  datatype Weight = FreeBlocks | FreeFrags | RunsOf(k: nat) | InCyl(c: nat) | InPos(c: nat, r: nat) | AnyFrag

  /** What block `h`, whose fragments are `b`, adds to that count. */
  function WeightOf(g: Geom, w: Weight, h: nat, b: seq<bool>): nat
    requires g.Valid() && h < g.Blocks()
  {
    match w
    case FreeBlocks => if AllFree(b) then 1 else 0
    case FreeFrags => if AllFree(b) then 0 else Count(b)
    case RunsOf(k) => if AllFree(b) then 0 else Runs.Histogram(b, |b|, k)
    case InCyl(c) => if AllFree(b) && g.Cyl(h) == c then 1 else 0
    case InPos(c, r) => if AllFree(b) && g.Cyl(h) == c && g.rpos[h] == r then 1 else 0
    case AnyFrag => Count(b)
  }

  /** The sum over the first `n` blocks. */
  function Sum(g: Geom, w: Weight, blocks: seq<seq<bool>>, n: nat): nat
    requires g.Valid() && n <= |blocks| <= g.Blocks()
  {
    if n == 0 then 0 else Sum(g, w, blocks, n - 1) + WeightOf(g, w, n - 1, blocks[n - 1])
  }

  function Total(g: Geom, w: Weight, blocks: seq<seq<bool>>): nat
    requires g.Valid() && |blocks| == g.Blocks()
  {
    Sum(g, w, blocks, |blocks|)
  }

  lemma {:induction false} SumUpdate(g: Geom, w: Weight, blocks: seq<seq<bool>>, h: nat, b: seq<bool>, n: nat)
    requires g.Valid() && n <= |blocks| <= g.Blocks() && h < |blocks|
    ensures Sum(g, w, blocks[h := b], n) == Sum(g, w, blocks, n) +
      if h < n then WeightOf(g, w, h, b) - WeightOf(g, w, h, blocks[h]) else 0
  {
    hide WeightOf;
    if n > 0 {
      SumUpdate(g, w, blocks, h, b, n - 1);
    }
  }

  /** Changing one block changes a total by the difference of its weights. */
  lemma TotalUpdate(g: Geom, w: Weight, blocks: seq<seq<bool>>, h: nat, b: seq<bool>)
    requires g.Valid() && |blocks| == g.Blocks() && h < |blocks|
    ensures Total(g, w, blocks[h := b]) == Total(g, w, blocks) + WeightOf(g, w, h, b) - WeightOf(g, w, h, blocks[h])
  {
    hide WeightOf, Sum;
    SumUpdate(g, w, blocks, h, b, |blocks|);
  }

  /** Every free fragment is in a free block or in a partly free one. */
  lemma {:induction false} FreeSplits(g: Geom, blocks: seq<seq<bool>>, n: nat)
    requires g.Valid() && n <= |blocks| <= g.Blocks() && forall h :: 0 <= h < |blocks| ==> |blocks[h]| == g.frag
    ensures Sum(g, AnyFrag, blocks, n) == Sum(g, FreeBlocks, blocks, n) * g.frag + Sum(g, FreeFrags, blocks, n)
  {
    if n > 0 {
      FreeSplits(g, blocks, n - 1);
      if AllFree(blocks[n - 1]) {
        CountAll(blocks[n - 1]);
      }
      var a, f := Sum(g, FreeBlocks, blocks, n - 1), g.frag;
      assert (a + 1) * f == a * f + f;
    }
  }

  lemma {:induction false} CountAll(b: seq<bool>)
    requires AllFree(b)
    ensures Count(b) == |b|
  {
    if b != [] {
      CountAll(b[..|b| - 1]);
    }
  }

  // ---------------------------------------------------------------- partly free blocks

  /** The block whose fragments from `lo` up to `hi` are free. */
  function Partial(frag: nat, lo: nat, hi: nat): (b: seq<bool>)
    ensures |b| == frag
  {
    seq(frag, i => lo <= i < hi)
  }

  lemma {:induction false} CountPartial(frag: nat, lo: nat, hi: nat, n: nat)
    requires lo <= hi <= frag && n <= frag
    ensures Count(Partial(frag, lo, hi)[..n]) == if n <= lo then 0 else if n <= hi then n - lo else hi - lo
  {
    var b := Partial(frag, lo, hi);
    if n > 0 {
      assert b[..n][..n - 1] == b[..n - 1];
      CountPartial(frag, lo, hi, n - 1);
    }
  }

  lemma {:induction false} RunBeforePartial(frag: nat, lo: nat, hi: nat, n: nat)
    requires lo <= n <= hi <= frag
    ensures Runs.RunBefore(Partial(frag, lo, hi), n) == n - lo
  {
    if n > lo {
      RunBeforePartial(frag, lo, hi, n - 1);
    }
  }

  lemma {:induction false} RunsPartial(frag: nat, lo: nat, hi: nat, k: nat, n: nat)
    requires lo < hi <= frag && n <= frag
    ensures Runs.RunCount(Partial(frag, lo, hi), frag, k, n) == if hi <= n && k == hi - lo then 1 else 0
  {
    if n > 0 {
      RunsPartial(frag, lo, hi, k, n - 1);
      if n == hi {
        RunBeforePartial(frag, lo, hi, n);
      }
    }
  }

  /** A partly free block has one run of free fragments. */
  lemma PartialWeights(g: Geom, h: nat, lo: nat, hi: nat, w: Weight)
    requires g.Valid() && h < g.Blocks() && lo < hi <= g.frag && hi - lo < g.frag
    ensures WeightOf(g, w, h, Partial(g.frag, lo, hi)) == match w
      case FreeFrags => hi - lo
      case AnyFrag => hi - lo
      case RunsOf(k) => if k == hi - lo then 1 else 0
      case _ => 0
  {
    var b := Partial(g.frag, lo, hi);
    assert !b[if lo > 0 then 0 else g.frag - 1];
    assert b[..g.frag] == b;
    CountPartial(g.frag, lo, hi, g.frag);
    if w.RunsOf? {
      RunsPartial(g.frag, lo, hi, w.k, g.frag);
    }
  }

  lemma {:induction false} NoRuns(b: seq<bool>, k: nat, n: nat)
    requires n <= |b| && forall i :: 0 <= i < |b| ==> !b[i]
    ensures Runs.RunCount(b, |b|, k, n) == 0 && Count(b[..n]) == 0
  {
    if n > 0 {
      assert b[..n][..n - 1] == b[..n - 1];
      NoRuns(b, k, n - 1);
    }
  }

  /** A used block counts for nothing. */
  lemma UsedWeights(g: Geom, h: nat, b: seq<bool>, w: Weight)
    requires g.Valid() && h < g.Blocks() && |b| == g.frag && forall i :: 0 <= i < |b| ==> !b[i]
    ensures WeightOf(g, w, h, b) == 0
  {
    NoRuns(b, if w.RunsOf? then w.k else 0, |b|);
    assert b[..|b|] == b;
    assert !b[0];
  }

  lemma FreeWeights(g: Geom, h: nat, b: seq<bool>, w: Weight)
    requires g.Valid() && h < g.Blocks() && |b| == g.frag && AllFree(b)
    ensures WeightOf(g, w, h, b) == match w
      case FreeBlocks => 1
      case InCyl(c) => if g.Cyl(h) == c then 1 else 0
      case InPos(c, r) => if g.Cyl(h) == c && g.rpos[h] == r then 1 else 0
      case AnyFrag => g.frag
      case _ => 0
  {
    CountAll(b);
  }

  // ---------------------------------------------------------------- the bitmap as a list of blocks

  /** The fragments of each block. */
  function BlocksOf(frag: nat, cp: seq<bv8>, n: nat): (r: seq<seq<bool>>)
    requires FragSize(frag) && n * frag <= 8 * |cp|
    ensures |r| == n
    ensures forall h :: 0 <= h < n ==> |r[h]| == frag
  {
    seq(n, h requires 0 <= h < n => seq(frag, i requires 0 <= i < frag => FragmentSet(frag, cp, n, h, i)))
  }

  predicate FragmentSet(frag: nat, cp: seq<bv8>, n: nat, h: nat, i: nat)
    requires FragSize(frag) && n * frag <= 8 * |cp| && h < n && i < frag
  {
    assert (h * frag + i) / 8 < |cp|;
    IsSet(cp, h * frag + i)
  }

  lemma FragmentsDiffer(frag: nat, h: nat, i: nat)
    requires FragSize(frag) && i < frag
    ensures (h * frag + i) / frag == h && (h * frag + i) % frag == i
  {
  }

  /** Setting the fragments from `lo` up to `hi` of one unused block makes that block partly free. */
  lemma BlocksSet(frag: nat, cp: seq<bv8>, cp': seq<bv8>, n: nat, h: nat, lo: nat, hi: nat)
    requires FragSize(frag) && n * frag <= 8 * |cp| && |cp'| == |cp| && h < n && lo <= hi <= frag
    requires forall d :: 0 <= d < 8 * |cp| ==> (IsSet(cp', d) <==> IsSet(cp, d) || h * frag + lo <= d < h * frag + hi)
    requires forall i :: 0 <= i < frag ==> !BlocksOf(frag, cp, n)[h][i]
    ensures BlocksOf(frag, cp', n) == BlocksOf(frag, cp, n)[h := Partial(frag, lo, hi)]
  {
    hide IsSet;
    var r, r' := BlocksOf(frag, cp, n), BlocksOf(frag, cp', n);
    forall g | 0 <= g < n ensures r'[g] == if g == h then Partial(frag, lo, hi) else r[g] {
      forall i | 0 <= i < frag ensures r'[g][i] == if g == h then lo <= i < hi else r[g][i] {
        FragmentsDiffer(frag, g, i);
        FragmentsDiffer(frag, h, i);
        assert FragmentSet(frag, cp, n, g, i) == r[g][i];
        assert (h * frag + lo <= g * frag + i < h * frag + hi) <==> g == h && lo <= i < hi;
      }
    }
  }

  /** Clearing one block makes it used. */
  lemma BlocksCleared(frag: nat, cp: seq<bv8>, cp': seq<bv8>, n: nat, h: nat)
    requires FragSize(frag) && n * frag <= 8 * |cp| && |cp'| == |cp| && h < n
    requires forall d :: 0 <= d < 8 * |cp| ==> (IsSet(cp', d) <==> IsSet(cp, d) && d / frag != h)
    ensures BlocksOf(frag, cp', n) == BlocksOf(frag, cp, n)[h := Partial(frag, 0, 0)]
  {
    hide IsSet;
    var r, r' := BlocksOf(frag, cp, n), BlocksOf(frag, cp', n);
    forall g | 0 <= g < n ensures r'[g] == if g == h then Partial(frag, 0, 0) else r[g] {
      forall i | 0 <= i < frag ensures r'[g][i] == if g == h then false else r[g][i] {
        FragmentsDiffer(frag, g, i);
        assert FragmentSet(frag, cp, n, g, i) == r[g][i];
      }
    }
  }

  /** `isblock` looks at exactly the fragments of the block. */
  lemma BlockFreeIs(frag: nat, cp: seq<bv8>, n: nat, h: nat)
    requires FragSize(frag) && n * frag <= 8 * |cp| && h < n
    ensures ByteOf(frag, h) < |cp|
    ensures BlockFree(frag, cp, h) <==> AllFree(BlocksOf(frag, cp, n)[h])
  {
    hide IsSet;
    var b := BlocksOf(frag, cp, n)[h];
    FragmentsDiffer(frag, h, 0);
    if AllFree(b) {
      forall d | 8 * ByteOf(frag, h) <= d < 8 * ByteOf(frag, h) + 8 && d / frag == h ensures IsSet(cp, d) {
        assert b[d - h * frag] == FragmentSet(frag, cp, n, h, d - h * frag);
      }
    }
    if BlockFree(frag, cp, h) {
      forall i | 0 <= i < frag ensures b[i] {
        FragmentsDiffer(frag, h, i);
        OtherByte(frag, h, h * frag + i);
        assert b[i] == FragmentSet(frag, cp, n, h, i);
      }
    }
  }

  // ---------------------------------------------------------------- the header

  /** The summary counters of a group. */
  datatype Csum = Csum(ndir: int, nbfree: int, nifree: int, nffree: int)

  /** Every counter equals the sum it stands for. */
  ghost predicate Agree(g: Geom, bs: seq<seq<bool>>, cs: Csum, frsum: seq<int>, blktot: seq<int>, blks: seq<seq<int>>) {
    && g.Valid() && |bs| == g.Blocks() && |frsum| == 8 && |blktot| == |blks| == g.cpg
    && cs.nbfree == Total(g, FreeBlocks, bs)
    && cs.nffree == Total(g, FreeFrags, bs)
    && (forall k :: 1 <= k < g.frag ==> frsum[k] == Total(g, RunsOf(k), bs))
    && (forall c :: 0 <= c < g.cpg ==> blktot[c] == Total(g, InCyl(c), bs))
    && (forall c :: 0 <= c < g.cpg ==> |blks[c]| == g.nrpos)
    && (forall c, r :: 0 <= c < g.cpg && 0 <= r < g.nrpos ==> blks[c][r] == Total(g, InPos(c, r), bs))
  }

  /** `blks` with the counter of block `h` changed. */
  function Counted(g: Geom, blks: seq<seq<int>>, h: nat, delta: int): (r: seq<seq<int>>)
    requires g.Valid() && h < g.Blocks() && |blks| == g.cpg
    requires forall c :: 0 <= c < g.cpg ==> |blks[c]| == g.nrpos
    ensures |r| == g.cpg && forall c :: 0 <= c < g.cpg ==> |r[c]| == g.nrpos
  {
    CylInRange(g, h);
    blks[g.Cyl(h) := blks[g.Cyl(h)][g.rpos[h] := blks[g.Cyl(h)][g.rpos[h]] + delta]]
  }

  /** Freeing or taking a whole block keeps the counters right when three of them change by one. */
  lemma WholeBlock(g: Geom, bs: seq<seq<bool>>, h: nat, b: seq<bool>,
                   cs: Csum, frsum: seq<int>, blktot: seq<int>, blks: seq<seq<int>>)
    requires Agree(g, bs, cs, frsum, blktot, blks) && h < |bs| && |b| == |bs[h]| == g.frag
    requires AllFree(b) != AllFree(bs[h]) && (forall i :: 0 <= i < g.frag ==> b[i] == b[0] && bs[h][i] == bs[h][0])
    ensures g.Cyl(h) < g.cpg
    ensures var delta := if AllFree(b) then 1 else -1;
      Agree(g, bs[h := b], cs.(nbfree := cs.nbfree + delta), frsum,
            blktot[g.Cyl(h) := blktot[g.Cyl(h)] + delta], Counted(g, blks, h, delta))
  {
    hide Total, WeightOf;
    CylInRange(g, h);
    forall w: Weight
      ensures Total(g, w, bs[h := b]) == Total(g, w, bs) + WeightOf(g, w, h, b) - WeightOf(g, w, h, bs[h])
      ensures WeightOf(g, w, h, b) - WeightOf(g, w, h, bs[h]) == (if AllFree(b) then 1 else -1) * match w
        case FreeBlocks => 1
        case InCyl(c) => if g.Cyl(h) == c then 1 else 0
        case InPos(c, r) => if g.Cyl(h) == c && g.rpos[h] == r then 1 else 0
        case AnyFrag => g.frag
        case _ => 0
    {
      TotalUpdate(g, w, bs, h, b);
      if AllFree(b) {
        FreeWeights(g, h, b, w);
        UsedWeights(g, h, bs[h], w);
      } else {
        UsedWeights(g, h, b, w);
        FreeWeights(g, h, bs[h], w);
      }
    }
  }

  /** Freeing part of a used block keeps the counters right when its run and its fragments are counted. */
  lemma PartOfBlock(g: Geom, bs: seq<seq<bool>>, h: nat, lo: nat, hi: nat,
                    cs: Csum, frsum: seq<int>, blktot: seq<int>, blks: seq<seq<int>>)
    requires Agree(g, bs, cs, frsum, blktot, blks) && h < |bs| && |bs[h]| == g.frag
    requires lo < hi <= g.frag && hi - lo < g.frag && forall i :: 0 <= i < g.frag ==> !bs[h][i]
    ensures Agree(g, bs[h := Partial(g.frag, lo, hi)], cs.(nffree := cs.nffree + (hi - lo)),
                  frsum[hi - lo := frsum[hi - lo] + 1], blktot, blks)
  {
    hide Total, WeightOf;
    forall w: Weight
      ensures Total(g, w, bs[h := Partial(g.frag, lo, hi)]) == Total(g, w, bs) + match w
        case FreeFrags => hi - lo
        case AnyFrag => hi - lo
        case RunsOf(k) => if k == hi - lo then 1 else 0
        case _ => 0
    {
      TotalUpdate(g, w, bs, h, Partial(g.frag, lo, hi));
      PartialWeights(g, h, lo, hi, w);
      UsedWeights(g, h, bs[h], w);
    }
  }
}
