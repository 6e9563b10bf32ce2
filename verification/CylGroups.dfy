/** Building the cylinder groups, and allocating from the first one. */
module CylGroups {
  import opened Common
  import opened BlockMap
  import opened CgSpec
  import ClusterSum
  import Runs

  // ---------------------------------------------------------------- the bounds of a group

  /** The data fragments of group `c`: the last group may be short. */
  function Ndblk(g: Geom, c: nat): nat
    requires c * g.fpg <= g.size
  {
    if c * g.fpg + g.fpg > g.size then g.size - c * g.fpg else g.fpg
  }

  function Offset(g: Geom, c: nat): nat
    requires g.Valid()
  {
    g.cgoffset * (c % g.stagger)
  }

  /** The fragments from `Dlower` up to `Dupper` hold the superblock copy, the group header, the inodes and,
      in group 0, the summary area; group 0 also keeps what lies below. */
  function Dlower(g: Geom, c: nat): nat
    requires g.Valid()
  {
    Offset(g, c) + g.sblkno
  }

  function Dupper(g: Geom, c: nat): nat
    requires g.Valid()
  {
    Offset(g, c) + g.dblkno + if c == 0 then g.csFrags else 0
  }

  /** The layout that `mkfs` has checked before it builds group `c`. */
  predicate Fits(g: Geom, c: nat) {
    && g.Valid() && c < g.ncg && c * g.fpg <= g.size
    && Dlower(g, c) <= Ndblk(g, c) && RoundUp(Dupper(g, c), g.frag) <= g.fpg
  }

  /** The fragments that are freed behind the end of the group, to fill up the block that holds the end of
      the summary area. */
  function Overhang(g: Geom, c: nat): (n: nat)
    requires Fits(g, c)
    ensures n == 0 <==> RoundUp(Dupper(g, c), g.frag) <= Ndblk(g, c)
  {
    var ru, end := RoundUp(Dupper(g, c), g.frag), Ndblk(g, c);
    if ru > end then ru - end else 0
  }

  ghost predicate AllFit(g: Geom) {
    g.ncg > 0 && forall c :: 0 <= c < g.ncg ==> Fits(g, c)
  }

  ghost predicate NoOverhang(g: Geom)
    requires AllFit(g)
  {
    forall c :: 0 <= c < g.ncg ==> Overhang(g, c) == 0
  }

  /** Is there a whole block of data behind the summary area of group 0? */
  predicate RoomForRoot(g: Geom)
    requires Fits(g, 0)
  {
    RoundUp(Dupper(g, 0), g.frag) + g.frag <= Ndblk(g, 0)
  }

  /** Which fragments of a new group are free. */
  predicate FreeAtFirst(g: Geom, c: nat, d: nat)
    requires Fits(g, c)
  {
    || (c > 0 && d < Dlower(g, c))
    || (Dupper(g, c) <= d && (d < RoundUp(Dupper(g, c), g.frag) || d < Ndblk(g, c)))
  }

  function BlockAtFirst(g: Geom, c: nat, h: nat): (b: seq<bool>)
    requires Fits(g, c)
    ensures |b| == g.frag
  {
    seq(g.frag, i requires 0 <= i < g.frag => FreeAtFirst(g, c, h * g.frag + i))
  }

  // ---------------------------------------------------------------- inodes

  /** How many of the first `n` inodes are in use. */
  function UsedInodes(used: seq<bv8>, n: nat): (r: nat)
    requires n <= 8 * |used|
    ensures r <= n
  {
    if n == 0 then 0 else UsedInodes(used, n - 1) + if IsSet(used, n - 1) then 1 else 0
  }

  lemma {:induction false} OneMoreUsed(used: seq<bv8>, used': seq<bv8>, ino: nat, n: nat)
    requires n <= 8 * |used| && |used'| == |used|
    requires forall d :: 0 <= d < 8 * |used| ==> (IsSet(used', d) <==> IsSet(used, d) || d == ino)
    ensures UsedInodes(used', n) == UsedInodes(used, n) + if ino < n && !IsSet(used, ino) then 1 else 0
  {
    hide IsSet;
    if n > 0 {
      OneMoreUsed(used, used', ino, n - 1);
    }
  }

  // ---------------------------------------------------------------- a header and its agreement

  const CG_MAGIC := 0x090255
  const ROOTINO := 2

  datatype Header = Header(
    magic: int, ndblk: nat, cs: Csum, frsum: seq<int>, blktot: seq<int>, blks: seq<seq<int>>,
    clusterSum: seq<int>, free: seq<bv8>, clusters: seq<bv8>, inodes: seq<bv8>)

  /** The maps are long enough; the scan of the cluster map may fetch one byte more. */
  predicate Shaped(g: Geom, free: nat, clusters: nat, inodes: nat) {
    g.Valid() && g.fpg <= 8 * free && g.Blocks() / 8 < clusters && g.ipg <= 8 * inodes
  }

  /** A bit of the cluster map is set exactly when its block is free. */
  ghost predicate ClustersAgree(g: Geom, bs: seq<seq<bool>>, clusters: seq<bv8>) {
    g.contig > 0 ==> |bs| <= 8 * |clusters| && forall h :: 0 <= h < |bs| ==> (IsSet(clusters, h) <==> AllFree(bs[h]))
  }

  /** The free fragments of a group, block by block. */
  function Bits(g: Geom, free: seq<bv8>): seq<seq<bool>>
    requires g.Valid() && g.fpg <= 8 * |free|
  {
    BlocksOf(g.frag, free, g.Blocks())
  }

  /** Everything a header says twice, it says consistently. */
  ghost predicate Sound(g: Geom, hd: Header) {
    && Shaped(g, |hd.free|, |hd.clusters|, |hd.inodes|) && hd.magic == CG_MAGIC
    && Agree(g, Bits(g, hd.free), hd.cs, hd.frsum, hd.blktot, hd.blks)
    && ClustersAgree(g, Bits(g, hd.free), hd.clusters)
    && hd.cs.nifree == g.ipg - UsedInodes(hd.inodes, g.ipg) && hd.ndblk <= g.fpg
    && forall h :: 0 <= h < g.Blocks() && AllFree(Bits(g, hd.free)[h]) ==> h * g.frag < hd.ndblk
  }

  /** The header of group `c` as `initcg` leaves it: what is free, which inodes are reserved, and how many
      clusters of each length there are. */
  ghost predicate New(g: Geom, c: nat, hd: Header)
    requires Fits(g, c)
  {
    && Sound(g, hd) && hd.ndblk == Ndblk(g, c) && hd.cs.ndir == 0 && Bits(g, hd.free) == AtFirst(g, c)
    && (forall i :: 0 <= i < g.ipg ==> (IsSet(hd.inodes, i) <==> c == 0 && i < ROOTINO))
    && (g.contig > 0 ==> ClustersCounted(g, hd))
  }

  /** Entry `k` of the cluster summary is the number of runs of free blocks whose length, cut to the
      maximum, is `k`. */
  ghost predicate ClustersCounted(g: Geom, hd: Header)
    requires g.Valid() && g.fpg <= 8 * |hd.free|
  {
    var n := hd.ndblk / g.frag;
    && |hd.clusterSum| == g.contig + 1 && n <= g.Blocks()
    && forall k :: 0 <= k <= g.contig ==>
         hd.clusterSum[k] == Runs.Histogram(FreeBlockList(g, Bits(g, hd.free), n), g.contig, k)
  }

  function FreeBlockList(g: Geom, bs: seq<seq<bool>>, n: nat): seq<bool>
    requires n <= |bs|
  {
    seq(n, h requires 0 <= h < n => AllFree(bs[h]))
  }

  /** The counters of the first `n` groups, added up. */
  function SumCs(fscs: seq<Csum>, n: nat): Csum
    requires n <= |fscs|
  {
    if n == 0 then Csum(0, 0, 0, 0) else Plus(SumCs(fscs, n - 1), fscs[n - 1])
  }

  function Plus(a: Csum, b: Csum): Csum {
    Csum(a.ndir + b.ndir, a.nbfree + b.nbfree, a.nifree + b.nifree, a.nffree + b.nffree)
  }

  /** The fragments that a group's counters say are free. */
  function Freed(frag: nat, cs: Csum): int {
    cs.nbfree * frag + cs.nffree
  }

  ghost predicate Stored(g: Geom, freeBytes: nat, clusterBytes: nat, inodeBytes: nat,
                         disk: seq<Header>, fscs: seq<Csum>, cstotal: Csum, n: nat) {
    && n <= |disk| == |fscs| && cstotal == SumCs(fscs, n)
    && forall c :: 0 <= c < n ==>
         && Sound(g, disk[c]) && disk[c].cs == fscs[c]
         && |disk[c].free| == freeBytes && |disk[c].clusters| == clusterBytes && |disk[c].inodes| == inodeBytes
  }

  /** `frags` fragments at `d`, the start of the first free block, are taken; nothing else changes but what
      counts them. */
  ghost predicate Allocated(g: Geom, hd: Header, hd': Header, d: nat, frags: nat, isDir: bool) {
    && Sound(g, hd) && Sound(g, hd') && 0 < frags <= g.frag && d % g.frag == 0 && d / g.frag < g.Blocks()
    && AllFree(Bits(g, hd.free)[d / g.frag])
    && (forall h :: 0 <= h < d / g.frag ==> !AllFree(Bits(g, hd.free)[h]))
    && Bits(g, hd'.free) == Bits(g, hd.free)[d / g.frag := Partial(g.frag, frags, g.frag)]
    && Total(g, AnyFrag, Bits(g, hd'.free)) == Total(g, AnyFrag, Bits(g, hd.free)) - frags
    && hd'.inodes == hd.inodes && hd'.ndblk == hd.ndblk && hd'.cs.nifree == hd.cs.nifree
    && hd'.cs.ndir == hd.cs.ndir + if isDir then 1 else 0
  }

  /** `hd` with another inode map and one inode less that is free. */
  function WithInodes(hd: Header, inodes: seq<bv8>): Header {
    hd.(inodes := inodes, cs := hd.cs.(nifree := hd.cs.nifree - 1))
  }

  class Builder {
    const g: Geom
    const bsize: nat
    const fsize: nat

    // the group header in memory, `acg`
    const free: array<bv8>
    const clusters: array<bv8>
    const inodes: array<bv8>
    var magic: int
    var ndblk: nat
    var cs: Csum
    var frsum: seq<int>
    var blktot: seq<int>
    var blks: seq<seq<int>>
    var clusterSum: seq<int>

    // the superblock's totals, the summary area, and the headers on the disk
    var cstotal: Csum
    var dsize: int
    var fscs: seq<Csum>
    var disk: seq<Header>

    ghost predicate Shape() {
      && Shaped(g, free.Length, clusters.Length, inodes.Length)
      && free != clusters && free != inodes && clusters != inodes && bsize == g.frag * fsize && fsize > 0
    }

    /** The counters and the cluster map agree with the bitmap. */
    ghost predicate Counts()
      requires Shape()
      reads this`cs, this`frsum, this`blktot, this`blks, free, clusters
    {
      var bs := Bits(g, free[..]);
      Agree(g, bs, cs, frsum, blktot, blks) && ClustersAgree(g, bs, clusters[..])
    }

    /** The first `n` groups are on the disk, sound, and counted in the summary area and the superblock. */
    ghost predicate Consistent(n: nat)
      reads this`disk, this`fscs, this`cstotal
    {
      |disk| == |fscs| == g.ncg && Stored(g, free.Length, clusters.Length, inodes.Length, disk, fscs, cstotal, n)
    }

    /** Free the whole block that starts at fragment `d`. */
    method FreeBlock(d: nat)
      requires Shape() && Counts() && d % g.frag == 0 && d / g.frag < g.Blocks()
      requires Bits(g, free[..])[d / g.frag] == Partial(g.frag, 0, 0)
      modifies this`cs, this`blktot, this`blks, free, clusters
      ensures Counts()
      ensures Bits(g, free[..]) == old(Bits(g, free[..]))[d / g.frag := Partial(g.frag, 0, g.frag)]
      ensures cs == old(cs).(nbfree := old(cs).nbfree + 1)
    {
      hide IsSet, Agree, BlocksOf, ClustersAgree, Counted;
      var blkno := d / g.frag;
      ghost var was, bs := free[..], Bits(g, free[..]);
      BlockFreeIs(g.frag, was, g.Blocks(), blkno);
      SetBlock(g.frag, free, blkno);
      ghost var now := free[..];
      BlockFreed(g, was, now, blkno, cs, frsum, blktot, blks);
      FreeCluster(blkno, bs);
      cs := cs.(nbfree := cs.nbfree + 1);
      var cyl := d * g.nspf / g.spc;
      assert cyl == g.Cyl(blkno);
      blktot := blktot[cyl := blktot[cyl] + 1];
      blks := Counted(g, blks, blkno, 1);
      assert free[..] == now;
    }

    /** Mark block `h` free in the cluster map. */
    method FreeCluster(h: nat, ghost bs: seq<seq<bool>>)
      requires Shape() && h < |bs| == g.Blocks() && ClustersAgree(g, bs, clusters[..])
      modifies clusters
      ensures ClustersAgree(g, bs[h := Partial(g.frag, 0, g.frag)], clusters[..])
    {
      hide IsSet, ClustersAgree;
      ghost var was := clusters[..];
      if g.contig > 0 {
        SetBit(clusters, h);
      }
      ClusterFreed(g, bs, h, was, clusters[..]);
    }

    /** Free fragments `lo` up to `hi` of a used block, one at a time, as one run. */
    method FreePart(h: nat, lo: nat, hi: nat)
      requires Shape() && Counts() && h < g.Blocks() && lo <= hi <= g.frag && hi - lo < g.frag
      requires Bits(g, free[..])[h] == Partial(g.frag, 0, 0)
      modifies this`cs, this`frsum, free
      ensures Counts()
      ensures Bits(g, free[..]) == old(Bits(g, free[..]))[h := Partial(g.frag, lo, hi)]
      ensures cs == old(cs).(nffree := old(cs).nffree + (hi - lo))
    {
      hide IsSet, Agree, BlocksOf, ClustersAgree;
      ghost var was := free[..];
      ghost var wasClusters := clusters[..];
      AgreeLengths(g, Bits(g, was), cs, frsum, blktot, blks);
      frsum := frsum[hi - lo := frsum[hi - lo] + 1];
      var i := lo;
      while i < hi
        invariant lo <= i <= hi && cs == old(cs).(nffree := old(cs).nffree + (i - lo))
        invariant clusters[..] == wasClusters
        invariant frsum == old(frsum)[hi - lo := old(frsum)[hi - lo] + 1]
        invariant forall d :: 0 <= d < 8 * free.Length ==>
          (IsSet(free[..], d) <==> IsSet(was, d) || h * g.frag + lo <= d < h * g.frag + i)
      {
        FirstFragment(g, h);
        SetBit(free, h * g.frag + i);
        cs := cs.(nffree := cs.nffree + 1);
        i := i + 1;
      }
      PartFreed(g, was, free[..], h, lo, hi, old(cs), old(frsum), blktot, blks, wasClusters);
    }

    /** `memset` of the header. */
    method Clear()
      requires Shape()
      modifies this`cs, this`frsum, this`blktot, this`blks, this`clusterSum, free, clusters, inodes
      ensures Counts() && Bits(g, free[..]) == seq(g.Blocks(), _ => Partial(g.frag, 0, 0))
      ensures cs == Csum(0, 0, 0, 0) && clusterSum == seq(g.contig + 1, _ => 0)
      ensures UsedInodes(inodes[..], g.ipg) == 0
      ensures forall d :: 0 <= d < 8 * inodes.Length ==> !IsSet(inodes[..], d)
    {
      hide Agree, BlocksOf, ClustersAgree, IsSet;
      forall i | 0 <= i < free.Length {
        free[i] := 0;
      }
      forall i | 0 <= i < clusters.Length {
        clusters[i] := 0;
      }
      forall i | 0 <= i < inodes.Length {
        inodes[i] := 0;
      }
      cs := Csum(0, 0, 0, 0);
      frsum := seq(8, _ => 0);
      blktot := seq(g.cpg, _ => 0);
      blks := seq(g.cpg, _ => seq(g.nrpos, _ => 0));
      clusterSum := seq(g.contig + 1, _ => 0);
      AllInUse(g, free[..], clusters[..], frsum, blktot, blks);
      NoneUsed(inodes[..], g.ipg);
    }

    /** Reserve the inodes below the root directory's. */
    method ReserveInodes()
      requires Shape() && g.ipg >= ROOTINO
      requires forall d :: 0 <= d < 8 * inodes.Length ==> !IsSet(inodes[..], d)
      requires cs.nifree == g.ipg - UsedInodes(inodes[..], g.ipg)
      modifies this`cs, inodes
      ensures cs == old(cs).(nifree := cs.nifree)
      ensures cs.nifree == g.ipg - UsedInodes(inodes[..], g.ipg)
      ensures forall d :: 0 <= d < 8 * inodes.Length ==> (IsSet(inodes[..], d) <==> d < ROOTINO)
    {
      hide IsSet, UsedInodes;
      var i := 0;
      while i < ROOTINO
        invariant i <= ROOTINO && cs == old(cs).(nifree := cs.nifree)
        invariant cs.nifree == g.ipg - UsedInodes(inodes[..], g.ipg)
        invariant forall d :: 0 <= d < 8 * inodes.Length ==> (IsSet(inodes[..], d) <==> d < i)
      {
        ghost var was := inodes[..];
        SetBit(inodes, i);
        OneMoreUsed(was, inodes[..], i, g.ipg);
        cs := cs.(nifree := cs.nifree - 1);
        i := i + 1;
      }
    }

    /** The blocks from `lo` on that end by `hi`, one after the other. */
    method FreeBlocks(ghost c: nat, lo: nat, hi: nat) returns (d: nat)
      requires Shape() && Counts() && Fits(g, c) && lo % g.frag == 0 && lo <= g.fpg && hi <= g.fpg
      requires Stage(g, c, Bits(g, free[..]), lo / g.frag)
      requires WholeFrom(g, c, lo, hi)
      modifies this`cs, this`blktot, this`blks, free, clusters
      ensures Counts() && Stage(g, c, Bits(g, free[..]), d / g.frag)
      ensures lo <= d < d + g.frag && d % g.frag == 0 && d + g.frag > hi && (d == lo || d <= hi)
      ensures cs == old(cs).(nbfree := cs.nbfree) && Freed(g.frag, cs) == Freed(g.frag, old(cs)) + d - lo
    {
      hide PieceAt, Counts, Stage;
      d := lo;
      while d + g.frag <= hi
        invariant lo <= d <= g.fpg && d % g.frag == 0 && (d == lo || d <= hi)
        invariant Counts() && Stage(g, c, Bits(g, free[..]), d / g.frag)
        invariant cs == old(cs).(nbfree := cs.nbfree) && Freed(g.frag, cs) == Freed(g.frag, old(cs)) + d - lo
        decreases hi - d
      {
        BlockBelow(g, d);
        StageNext(g, c, Bits(g, free[..]), d);
        OneMore(cs.nbfree, g.frag);
        FreeBlock(d);
        d := d + g.frag;
      }
    }

    /** Put the block that starts at `d` into the maps, all of it or some of it. */
    method FreePiece(ghost c: nat, d: nat, lo: nat, hi: nat)
      requires Shape() && Counts() && Fits(g, c) && d % g.frag == 0 && d / g.frag < g.Blocks()
      requires Stage(g, c, Bits(g, free[..]), d / g.frag)
      requires lo <= hi <= g.frag && hi - lo < g.frag && PieceAt(g, c, d) == Partial(g.frag, lo, hi)
      modifies this`cs, this`frsum, free
      ensures Counts() && Stage(g, c, Bits(g, free[..]), (d + g.frag) / g.frag)
      ensures cs == old(cs).(nffree := cs.nffree) && Freed(g.frag, cs) == Freed(g.frag, old(cs)) + hi - lo
    {
      hide Counts, Stage, BlocksOf, PieceAt;
      StageNext(g, c, Bits(g, free[..]), d);
      FreePart(d / g.frag, lo, hi);
    }

    /** Put the free blocks and fragments from `upper` on into the maps. */
    method FillUpper(ghost c: nat, upper: nat, end: nat)
      requires Shape() && Counts() && Fits(g, c) && upper == Dupper(g, c) && end == Ndblk(g, c)
      requires Stage(g, c, Bits(g, free[..]), upper / g.frag)
      modifies this`cs, this`frsum, this`blktot, this`blks, free, clusters
      ensures Counts() && Stage(g, c, Bits(g, free[..]), g.Blocks())
      ensures cs == old(cs).(nbfree := cs.nbfree, nffree := cs.nffree)
      ensures var ru := RoundUp(upper, g.frag);
        Freed(g.frag, cs) == Freed(g.frag, old(cs)) + (if end > ru then end else ru) - upper
    {
      hide Counts, Stage, BlocksOf, Dlower, Dupper, Ndblk, RoundUp, Partial, PieceAt, Bits, Freed, FragSize;
      Bounds(g, c);
      var dupper := upper;
      var i := dupper % g.frag;
      if i != 0 {
        UpperBlock(g, c);
        FreePiece(c, upper - i, i, g.frag);
        dupper := dupper + g.frag - i;
      }
      WholeBlocksAbove(g, c);
      var d := FreeBlocks(c, dupper, end);
      if d < end {
        LastPiece(g, c, d);
        FreePiece(c, d, 0, end - d);
        StageRest(g, c, Bits(g, free[..]), d + g.frag);
      } else {
        StageRest(g, c, Bits(g, free[..]), d);
      }
    }

    /** Put the free blocks and fragments of group `c` into the cleared maps. */
    method Fill(c: nat)
      requires Shape() && Counts() && Fits(g, c) && Stage(g, c, Bits(g, free[..]), 0)
      requires Freed(g.frag, cs) == 0
      modifies this`cs, this`frsum, this`blktot, this`blks, this`dsize, free, clusters
      ensures Counts() && Bits(g, free[..]) == AtFirst(g, c)
      ensures cs == old(cs).(nbfree := cs.nbfree, nffree := cs.nffree)
      ensures dsize == old(dsize) + Total(g, AnyFrag, AtFirst(g, c)) - Overhang(g, c)
    {
      hide Stage, BlocksOf, Dlower, Dupper, Ndblk, RoundUp, Partial, PieceAt, Agree, ClustersAgree, Freed;
      hide FragSize, Total;
      var dlower, dupper, end := Dlower(g, c), Dupper(g, c), Ndblk(g, c);
      Bounds(g, c);
      SameMultiple(0, 0, g.frag);
      var d := 0;
      if c > 0 {
        WholeBlocksBelow(g, c);
        d := FreeBlocks(c, 0, dlower);
        SameMultiple(d, dlower, g.frag);
        dsize := dsize + dlower;
      }
      dsize := dsize + end - dupper;
      StageGap(g, c, Bits(g, free[..]), d);
      FillUpper(c, dupper, end);
      StageEnd(g, c, Bits(g, free[..]));
      AllCounted(g, Bits(g, free[..]), cs, frsum, blktot, blks);
    }

    /** The header in memory, as it is written to the disk. */
    ghost function Image(): Header
      reads this`magic, this`ndblk, this`cs, this`frsum, this`blktot, this`blks, this`clusterSum, free, clusters, inodes
    {
      Header(magic, ndblk, cs, frsum, blktot, blks, clusterSum, free[..], clusters[..], inodes[..])
    }

    /** Write the header of group `c` through `wtfs`, which acts as a plain disk. */
    method Store(c: nat)
      requires c < |disk|
      modifies this`disk
      ensures disk == old(disk)[c := Image()]
    {
      disk := disk[c := Header(magic, ndblk, cs, frsum, blktot, blks, clusterSum, free[..], clusters[..], inodes[..])];
    }

    /** The header of a group in which nothing is free yet. */
    method Reset(c: nat)
      requires Shape() && Fits(g, c) && g.ipg >= ROOTINO
      modifies this`magic, this`ndblk, this`cs, this`frsum, this`blktot, this`blks, this`clusterSum
      modifies free, clusters, inodes
      ensures Counts() && Stage(g, c, Bits(g, free[..]), 0) && Freed(g.frag, cs) == 0 && cs.ndir == 0
      ensures magic == CG_MAGIC && ndblk == Ndblk(g, c) && clusterSum == seq(g.contig + 1, _ => 0)
      ensures cs.nifree == g.ipg - UsedInodes(inodes[..], g.ipg)
      ensures forall i :: 0 <= i < 8 * inodes.Length ==> (IsSet(inodes[..], i) <==> c == 0 && i < ROOTINO)
    {
      hide BlocksOf, IsSet, UsedInodes, Total, ClustersAgree, Stage;
      Clear();
      ghost var was, wasClusters := free[..], clusters[..];
      StageStart(g, c, Bits(g, free[..]));
      magic := CG_MAGIC;
      ndblk := Ndblk(g, c);
      cs := cs.(nifree := cs.nifree + g.ipg);
      if c == 0 {
        ReserveInodes();
      }
      assert free[..] == was && clusters[..] == wasClusters;
    }

    /** `initcg`: build group `c` and write it to the disk. */
    method InitCg(c: nat)
      requires Shape() && Fits(g, c) && g.ipg >= ROOTINO && Consistent(c)
      modifies this, free, clusters, inodes
      ensures Consistent(c + 1) && New(g, c, disk[c])
      ensures disk == old(disk)[c := disk[c]] && cstotal == Plus(old(cstotal), disk[c].cs)
      ensures dsize == old(dsize) + Total(g, AnyFrag, AtFirst(g, c)) - Overhang(g, c)
    {
      hide Stage, BlocksOf, BlockAtFirst, RoundUp, Total, Dlower, Dupper, IsSet, UsedInodes, Stored, Agree;
      hide ClustersAgree;
      hide ClusterSum.BitsOf, Runs.Histogram, New, Sound;
      Reset(c);
      Fill(c);
      EndBlock(g, ndblk);
      if g.contig > 0 {
        ghost var bytes := clusters[..];
        clusterSum := ClusterSum.Summarise(clusters, ndblk / g.frag, clusterSum, g.contig);
        ClusterBits(g, Bits(g, free[..]), bytes, ndblk / g.frag);
      }
      IsNew(g, c, Image());
      cstotal := Plus(cstotal, cs);
      fscs := fscs[c := cs];
      Store(c);
      OneMoreGroup(g, old(disk), disk, old(fscs), old(cstotal), c);
    }

    /** `rdfs` of a header. */
    method Load(c: nat)
      requires Shape() && c < |disk|
      requires |disk[c].free| == free.Length && |disk[c].clusters| == clusters.Length
      requires |disk[c].inodes| == inodes.Length
      modifies this`magic, this`ndblk, this`cs, this`frsum, this`blktot, this`blks, this`clusterSum
      modifies free, clusters, inodes
      ensures Image() == disk[c]
    {
      var hd := disk[c];
      forall i | 0 <= i < free.Length {
        free[i] := hd.free[i];
      }
      forall i | 0 <= i < clusters.Length {
        clusters[i] := hd.clusters[i];
      }
      forall i | 0 <= i < inodes.Length {
        inodes[i] := hd.inodes[i];
      }
      magic, ndblk, cs, clusterSum := hd.magic, hd.ndblk, hd.cs, hd.clusterSum;
      frsum, blktot, blks := hd.frsum, hd.blktot, hd.blks;
      assert free[..] == hd.free && clusters[..] == hd.clusters && inodes[..] == hd.inodes;
    }

    /** The search of `alloc`: the first whole free block. */
    method FindFree() returns (found: bool, d: nat)
      requires Shape() && ndblk <= g.fpg
      ensures found ==> d % g.frag == 0 && d / g.frag < g.Blocks() && AllFree(Bits(g, free[..])[d / g.frag])
      ensures found ==> forall h :: 0 <= h < d / g.frag ==> !AllFree(Bits(g, free[..])[h])
      ensures !found ==>
        forall h :: 0 <= h < g.Blocks() && AllFree(Bits(g, free[..])[h]) ==> ndblk <= h * g.frag
    {
      hide BlocksOf, BlockFree, AllFree;
      d := 0;
      ghost var k := 0;
      found := false;
      while d < ndblk && !found
        invariant d == k * g.frag && (found ==> d < ndblk && k < g.Blocks() && AllFree(Bits(g, free[..])[k]))
        invariant forall h :: 0 <= h < k && h < g.Blocks() ==> !AllFree(Bits(g, free[..])[h])
        decreases ndblk - d, !found
      {
        MultipleBelow(k, g.frag, g.fpg);
        BlockFreeIs(g.frag, free[..], g.Blocks(), k);
        found := IsBlock(g.frag, free, d / g.frag);
        if !found {
          OneMore(k, g.frag);
          d := d + g.frag;
          k := k + 1;
        }
      }
      if found {
        MultipleBelow(k, g.frag, g.fpg);
      } else {
        forall h | 0 <= h < g.Blocks() && AllFree(Bits(g, free[..])[h]) ensures ndblk <= h * g.frag {
          Monotone(k, h, g.frag);
        }
      }
    }

    /** Take the whole free block that starts at fragment `d`. */
    method TakeBlock(d: nat)
      requires Shape() && Counts() && d % g.frag == 0 && d / g.frag < g.Blocks()
      requires AllFree(Bits(g, free[..])[d / g.frag])
      modifies this`cs, this`blktot, this`blks, free, clusters
      ensures Counts()
      ensures Bits(g, free[..]) == old(Bits(g, free[..]))[d / g.frag := Partial(g.frag, 0, 0)]
      ensures cs == old(cs).(nbfree := old(cs).nbfree - 1)
    {
      hide IsSet, Agree, BlocksOf, ClustersAgree, Counted;
      var blkno := d / g.frag;
      ghost var was, bs := free[..], Bits(g, free[..]);
      BlockFreeIs(g.frag, was, g.Blocks(), blkno);
      ClrBlock(g.frag, free, blkno);
      ghost var now := free[..];
      BlockTaken(g, was, now, blkno, cs, frsum, blktot, blks);
      TakeCluster(blkno, bs);
      cs := cs.(nbfree := cs.nbfree - 1);
      var cyl := d * g.nspf / g.spc;
      assert cyl == g.Cyl(blkno);
      blktot := blktot[cyl := blktot[cyl] - 1];
      blks := Counted(g, blks, blkno, -1);
      assert free[..] == now;
    }

    /** Mark block `h` used in the cluster map. */
    method TakeCluster(h: nat, ghost bs: seq<seq<bool>>)
      requires Shape() && h < |bs| == g.Blocks() && ClustersAgree(g, bs, clusters[..])
      modifies clusters
      ensures ClustersAgree(g, bs[h := Partial(g.frag, 0, 0)], clusters[..])
    {
      hide IsSet, ClustersAgree;
      ghost var was := clusters[..];
      if g.contig > 0 {
        ClrBit(clusters, h);
      }
      ClusterTaken(g, bs, h, was, clusters[..]);
    }

    /** Take `size` bytes of the free block at `d`: the rest of the block is given back as one run. */
    method Take(d: nat, size: nat, isDir: bool)
      requires Shape() && Counts() && d % g.frag == 0 && d / g.frag < g.Blocks() && 0 < size <= bsize
      requires AllFree(Bits(g, free[..])[d / g.frag]) && |fscs| > 0 && fscs[0] == cs
      modifies this`cs, this`frsum, this`blktot, this`blks, this`cstotal, this`fscs, free, clusters
      ensures Counts()
      ensures var frags := (size + fsize - 1) / fsize;
        0 < frags <= g.frag &&
        Bits(g, free[..]) == old(Bits(g, free[..]))[d / g.frag := Partial(g.frag, frags, g.frag)]
      ensures cs.ndir == old(cs).ndir + (if isDir then 1 else 0) && cs.nifree == old(cs).nifree
      ensures fscs == old(fscs)[0 := cs] && Plus(cstotal, old(cs)) == Plus(old(cstotal), cs)
    {
      hide Agree, ClustersAgree, BlocksOf, Partial, AllFree;
      ghost var bs := Bits(g, free[..]);
      TakeBlock(d);
      cstotal := cstotal.(nbfree := cstotal.nbfree - 1);
      fscs := fscs[0 := fscs[0].(nbfree := fscs[0].nbfree - 1)];
      if isDir {
        cs := cs.(ndir := cs.ndir + 1);
        cstotal := cstotal.(ndir := cstotal.ndir + 1);
        fscs := fscs[0 := fscs[0].(ndir := fscs[0].ndir + 1)];
        DirectoriesApart(g, Bits(g, free[..]), cs.(ndir := cs.ndir - 1), cs.ndir, frsum, blktot, blks);
      }
      var frags := (size + fsize - 1) / fsize;
      HowMany(size, fsize, g.frag);
      TakenWhole(g.frag, bs, d / g.frag, Partial(g.frag, frags, g.frag));
      if size != bsize {
        cstotal := cstotal.(nffree := cstotal.nffree + (g.frag - frags));
        fscs := fscs[0 := fscs[0].(nffree := fscs[0].nffree + (g.frag - frags))];
        FreePart(d / g.frag, frags, g.frag);
      }
    }

    /** `alloc`: take the first free block of group 0 and give back what `size` bytes do not need. */
    method Alloc(size: nat, isDir: bool, ghost n: nat) returns (d: nat)
      requires Shape() && Consistent(n) && n > 0 && 0 < size <= bsize
      modifies this, free, clusters, inodes
      ensures Consistent(n) && dsize == old(dsize)
      ensures old(disk[0].cs.nbfree) == 0 ==> d == 0 && disk == old(disk) && fscs == old(fscs)
      ensures disk == old(disk)[0 := disk[0]] && Plus(cstotal, old(disk[0].cs)) == Plus(old(cstotal), disk[0].cs)
      ensures old(disk[0].cs.nbfree) != 0 ==>
        Allocated(g, old(disk[0]), disk[0], d, (size + fsize - 1) / fsize, isDir)
    {
      hide Agree, ClustersAgree, BlocksOf, UsedInodes, IsSet, Partial, AllFree, SumCs;
      d := 0;
      Load(0);
      ghost var hd := disk[0];
      assert Image() == hd;
      if magic != CG_MAGIC {
        return;
      }
      if cs.nbfree == 0 {
        return;
      }
      var found, first := FindFree();
      if !found {
        SomeFree(g, hd);
        return;
      }
      d := first;
      Take(d, size, isDir);
      Store(0);
      IsAllocated(g, hd, disk[0], d, (size + fsize - 1) / fsize, isDir);
      GroupChanged(g, old(disk), old(fscs), old(cstotal), disk[0], n);
    }

    /** `iput`: mark inode `ino` used in group 0.  The result is the code of the exit it takes, 0 for none. */
    method Iput(ino: nat, ghost n: nat) returns (code: nat)
      requires Shape() && Consistent(n) && n > 0 && ino / 8 < inodes.Length
      modifies this, free, clusters, inodes
      ensures code == (if ino >= g.ipg * g.ncg then 32 else 0) && dsize == old(dsize)
      ensures |disk| > 0 && disk == old(disk)[0 := disk[0]] && disk[0] == WithInodes(old(disk[0]), disk[0].inodes)
      ensures cstotal == old(cstotal).(nifree := old(cstotal).nifree - 1)
      ensures |disk[0].inodes| == |old(disk[0].inodes)| && forall i :: 0 <= i < 8 * |disk[0].inodes| ==>
        (IsSet(disk[0].inodes, i) <==> IsSet(old(disk[0].inodes), i) || i == ino)
      ensures Consistent(n) <==> ino < g.ipg && !IsSet(old(disk[0].inodes), ino)
    {
      hide Sound, Stored, IsSet;
      code := 31;
      Group0(g, free.Length, clusters.Length, inodes.Length, disk, fscs, cstotal, n);
      Load(0);
      ghost var hd := disk[0];
      assert Image() == hd;
      if magic != CG_MAGIC {
        return;
      }
      code := 0;
      cs := cs.(nifree := cs.nifree - 1);
      SetBit(inodes, ino);
      Store(0);
      cstotal := cstotal.(nifree := cstotal.nifree - 1);
      fscs := fscs[0 := fscs[0].(nifree := fscs[0].nifree - 1)];
      assert disk[0] == WithInodes(hd, inodes[..]);
      InodeMarked(g, old(disk), old(fscs), old(cstotal), inodes[..], ino, n);
      if ino >= g.ipg * g.ncg {
        code := 32;
      }
    }

    /** `fsinit`: a fragment and an inode for the root directory.  `mid` is the header between the two.
        When no block is free the directory goes to fragment 0 and nothing is allocated. */
    method Fsinit(ghost n: nat) returns (d: nat, ghost mid: Header)
      requires Shape() && Consistent(n) && n > 0 && g.ipg > ROOTINO && !IsSet(disk[0].inodes, ROOTINO)
      modifies this, free, clusters, inodes
      ensures Consistent(n) && dsize == old(dsize) && |disk| > 0 && disk == old(disk)[0 := disk[0]]
      ensures if old(disk[0].cs.nbfree) != 0 then Allocated(g, old(disk[0]), mid, d, 1, true)
              else d == 0 && mid == old(disk[0])
      ensures disk[0] == WithInodes(mid, disk[0].inodes)
      ensures |disk[0].inodes| == |mid.inodes| && forall i :: 0 <= i < 8 * |mid.inodes| ==>
        (IsSet(disk[0].inodes, i) <==> IsSet(mid.inodes, i) || i == ROOTINO)
      ensures var taken := if old(disk[0].cs.nbfree) != 0 then 1 else 0;
        && Freed(g.frag, cstotal) == Freed(g.frag, old(cstotal)) - taken
        && cstotal.ndir == old(cstotal).ndir + taken && cstotal.nifree == old(cstotal).nifree - 1
    {
      hide Sound, IsSet, Allocated, Stored;
      ghost var hd := disk[0];
      Group0(g, free.Length, clusters.Length, inodes.Length, disk, fscs, cstotal, n);
      OneFragment(fsize, g.frag);
      d := Alloc(fsize, true, n);
      mid := disk[0];
      if hd.cs.nbfree != 0 {
        AllocatedFrees(g, hd, mid, d, 1, true, old(cstotal), cstotal);
      }
      Group0(g, free.Length, clusters.Length, inodes.Length, disk, fscs, cstotal, n);
      InodesInside(g, mid);
      var code := Iput(ROOTINO, n);
    }

    /** All groups, one after the other. */
    method MakeGroups()
      requires Shape() && g.ipg >= ROOTINO && |disk| == |fscs| == g.ncg && AllFit(g)
      requires cstotal == Csum(0, 0, 0, 0) && dsize == 0
      modifies this, free, clusters, inodes
      ensures Consistent(g.ncg) && forall c :: 0 <= c < g.ncg ==> New(g, c, disk[c])
      ensures cstotal.ndir == 0 && (g.ncg > 0 ==> cstotal.nifree == g.ncg * g.ipg - ROOTINO)
      ensures dsize == Freed(g.frag, cstotal) <==> NoOverhang(g)
    {
      hide New, Sound, Total, Overhang, AtFirst, Stored, Freed;
      NoGroups(g, free.Length, clusters.Length, inodes.Length, disk, fscs);
      var cylno := 0;
      ghost var lost: nat := 0;
      while cylno < g.ncg
        invariant cylno <= g.ncg && Consistent(cylno)
        invariant forall c :: 0 <= c < cylno ==> New(g, c, disk[c])
        invariant dsize == Freed(g.frag, cstotal) - lost
        invariant cstotal.ndir == 0 && cstotal.nifree == if cylno == 0 then 0 else cylno * g.ipg - ROOTINO
        invariant lost == 0 <==> forall c :: 0 <= c < cylno ==> Overhang(g, c) == 0
      {
        ghost var was := cstotal;
        InitCg(cylno);
        NewFreeSpace(g, cylno, disk[cylno], was);
        NewInodes(g, cylno, disk[cylno]);
        lost := lost + Overhang(g, cylno);
        cylno := cylno + 1;
      }
    }

    /** All groups and the root directory: at the end every header agrees with itself, and the summary area
        and the superblock add them up.  When group 0 has room for it the directory lies in the first whole
        block behind the summary area, and one fragment and one inode less than at first are free.  When it
        has none the directory lies in fragment 0, and it is not counted. */
    method MakeFs() returns (d: nat)
      requires Shape() && g.ipg > ROOTINO && |disk| == |fscs| == g.ncg && AllFit(g)
      requires cstotal == Csum(0, 0, 0, 0) && dsize == 0
      modifies this, free, clusters, inodes
      ensures Consistent(g.ncg) && forall c :: 1 <= c < g.ncg ==> New(g, c, disk[c])
      ensures d == if RoomForRoot(g) then RoundUp(Dupper(g, 0), g.frag) else 0
      ensures cstotal.ndir == (if RoomForRoot(g) then 1 else 0) && cstotal.nifree == g.ncg * g.ipg - ROOTINO - 1
      ensures dsize == Freed(g.frag, cstotal) + (if RoomForRoot(g) then 1 else 0) <==> NoOverhang(g)
    {
      hide Sound, Stored, Freed, AllFree, AtFirst, BlocksOf, Total, NoOverhang, RoomForRoot, Allocated, RoundUp, Dupper;
      MakeGroups();
      ghost var hd := disk[0];
      RootIsFree(g, hd);
      ghost var mid;
      d, mid := Fsinit(g.ncg);
      if RoomForRoot(g) {
        AllocatedFirst(g, hd, mid, d);
      }
    }
  }

  lemma Group0(g: Geom, freeBytes: nat, clusterBytes: nat, inodeBytes: nat,
               disk: seq<Header>, fscs: seq<Csum>, cstotal: Csum, n: nat)
    requires Stored(g, freeBytes, clusterBytes, inodeBytes, disk, fscs, cstotal, n) && n > 0
    ensures n <= |disk| == |fscs| && Sound(g, disk[0]) && disk[0].cs == fscs[0] && disk[0].magic == CG_MAGIC
    ensures |disk[0].free| == freeBytes && |disk[0].clusters| == clusterBytes && |disk[0].inodes| == inodeBytes
  {
  }

  /** The superblock's free space falls by what was allocated. */
  lemma AllocatedFrees(g: Geom, hd: Header, hd': Header, d: nat, frags: nat, isDir: bool, total: Csum, total': Csum)
    requires Allocated(g, hd, hd', d, frags, isDir) && Plus(total', hd.cs) == Plus(total, hd'.cs)
    ensures Freed(g.frag, total') == Freed(g.frag, total) - frags
    ensures total'.ndir == total.ndir + (if isDir then 1 else 0) && total'.nifree == total.nifree
    ensures hd'.inodes == hd.inodes
  {
    hide Total, BlocksOf, Agree, ClustersAgree, UsedInodes, Partial, AllFree;
    AllCounted(g, Bits(g, hd.free), hd.cs, hd.frsum, hd.blktot, hd.blks);
    AllCounted(g, Bits(g, hd'.free), hd'.cs, hd'.frsum, hd'.blktot, hd'.blks);
    var a, b, c, e, m := total'.nbfree, hd.cs.nbfree, total.nbfree, hd'.cs.nbfree, g.frag;
    assert a * m + b * m == (a + b) * m == (c + e) * m == c * m + e * m;
  }

  lemma OneFragment(fsize: nat, frag: nat)
    requires fsize > 0 && FragSize(frag)
    ensures (fsize + fsize - 1) / fsize == 1 && fsize <= frag * fsize
  {
    var n: int := (fsize + fsize - 1) / fsize;
    assert n <= 0 ==> n * fsize <= 0;
    assert n >= 2 ==> n * fsize >= 2 * fsize;
  }

  lemma InodesInside(g: Geom, hd: Header)
    requires Sound(g, hd) && g.ipg > ROOTINO
    ensures ROOTINO / 8 < |hd.inodes|
  {
  }

  lemma NoGroups(g: Geom, freeBytes: nat, clusterBytes: nat, inodeBytes: nat, disk: seq<Header>, fscs: seq<Csum>)
    requires |disk| == |fscs|
    ensures Stored(g, freeBytes, clusterBytes, inodeBytes, disk, fscs, Csum(0, 0, 0, 0), 0)
    ensures Freed(g.frag, Csum(0, 0, 0, 0)) == 0
  {
  }

  /** Only group 0 has inodes that are reserved. */
  lemma NewInodes(g: Geom, c: nat, hd: Header)
    requires Fits(g, c) && New(g, c, hd) && g.ipg >= ROOTINO
    ensures hd.cs.ndir == 0 && hd.cs.nifree == g.ipg - (if c == 0 then ROOTINO else 0)
    ensures (c + 1) * g.ipg == c * g.ipg + g.ipg
  {
    hide IsSet, BlocksOf, Agree, ClustersAgree, ClustersCounted, AtFirst, UsedInodes;
    OneMore(c, g.ipg);
    UsedBelow(hd.inodes, if c == 0 then ROOTINO else 0, g.ipg);
  }

  lemma {:induction false} UsedBelow(used: seq<bv8>, k: nat, n: nat)
    requires n <= 8 * |used| && forall i :: 0 <= i < n ==> (IsSet(used, i) <==> i < k)
    ensures UsedInodes(used, n) == if n < k then n else k
  {
    hide IsSet;
    if n > 0 {
      UsedBelow(used, k, n - 1);
    }
  }

  /** A new group adds its free fragments to those of the superblock. */
  lemma NewFreeSpace(g: Geom, c: nat, hd: Header, total: Csum)
    requires Fits(g, c) && New(g, c, hd)
    ensures Freed(g.frag, Plus(total, hd.cs)) == Freed(g.frag, total) + Total(g, AnyFrag, AtFirst(g, c))
  {
    hide Total, AtFirst, BlocksOf, Agree, ClustersAgree, UsedInodes, IsSet, ClustersCounted;
    AllCounted(g, Bits(g, hd.free), hd.cs, hd.frsum, hd.blktot, hd.blks);
    assert (total.nbfree + hd.cs.nbfree) * g.frag == total.nbfree * g.frag + hd.cs.nbfree * g.frag;
  }

  /** In a new first group the root inode is free, and free blocks are counted when there is room. */
  lemma RootIsFree(g: Geom, hd: Header)
    requires Fits(g, 0) && New(g, 0, hd) && g.ipg > ROOTINO
    ensures ROOTINO / 8 < |hd.inodes| && !IsSet(hd.inodes, ROOTINO)
    ensures hd.cs.nbfree != 0 <==> RoomForRoot(g)
    ensures g.fpg <= 8 * |hd.free| && Bits(g, hd.free) == AtFirst(g, 0)
  {
    hide IsSet, AtFirst, BlocksOf, ClustersAgree, ClustersCounted, UsedInodes, Total, RoomForRoot;
    RoomIsFree(g);
  }

  /** The block behind the summary area is the first one that is free in group 0, if any is. */
  lemma FirstFree(g: Geom, h: nat)
    requires Fits(g, 0) && h < g.Blocks()
    ensures var ru := RoundUp(Dupper(g, 0), g.frag);
      AllFree(AtFirst(g, 0)[h]) <==> ru <= h * g.frag && h * g.frag + g.frag <= Ndblk(g, 0)
  {
    hide Dlower, Dupper, Ndblk, RoundUp, Partial, BlockAtFirst, AllFree;
    Bounds(g, 0);
    PieceIs(g, 0, h);
    var d, upper, end := h * g.frag, Dupper(g, 0), Ndblk(g, 0);
    MultipleOf(g.frag, h, Dlower(g, 0), upper, RoundUp(upper, g.frag));
    WholePieces(g.frag, upper % g.frag, if d < end < d + g.frag then end - d else 0);
  }

  lemma WholePieces(frag: nat, lo: nat, hi: nat)
    requires frag > 0 && lo < frag && hi < frag
    ensures AllFree(Partial(frag, 0, frag)) && !AllFree(Partial(frag, 0, 0)) && !AllFree(Partial(frag, 0, hi))
    ensures AllFree(Partial(frag, lo, frag)) ==> lo == 0
  {
    WholePiece(frag, 0, 0);
    WholePiece(frag, 0, hi);
    WholePiece(frag, lo, frag);
  }

  /** Where that block is. */
  lemma RoomAt(g: Geom)
    requires Fits(g, 0) && RoomForRoot(g)
    ensures var ru := RoundUp(Dupper(g, 0), g.frag);
      ru / g.frag < g.Blocks() && ru / g.frag * g.frag == ru && AllFree(AtFirst(g, 0)[ru / g.frag])
  {
    hide Dlower, Dupper, Ndblk, RoundUp, AllFree, AtFirst;
    Bounds(g, 0);
    var ru := RoundUp(Dupper(g, 0), g.frag);
    BlockBelow(g, ru);
    NextBlock(ru, g.frag);
    FirstFree(g, ru / g.frag);
  }

  lemma {:induction false} FreeCounted(g: Geom, bs: seq<seq<bool>>, h: nat, n: nat)
    requires g.Valid() && n <= |bs| <= g.Blocks()
    ensures Sum(g, FreeBlocks, bs, n) >= 0
    ensures h < n && AllFree(bs[h]) ==> Sum(g, FreeBlocks, bs, n) > 0
  {
    if n > 0 {
      FreeCounted(g, bs, h, n - 1);
    }
  }

  /** A whole block of group 0 is free exactly when there is room behind the summary area. */
  lemma RoomIsFree(g: Geom)
    requires Fits(g, 0)
    ensures Total(g, Weight.FreeBlocks, AtFirst(g, 0)) > 0 <==> RoomForRoot(g)
    ensures Total(g, Weight.FreeBlocks, AtFirst(g, 0)) >= 0
  {
    hide AtFirst, AllFree, RoundUp, Dupper, Ndblk, Sum;
    var bs := AtFirst(g, 0);
    FreeCounted(g, bs, 0, |bs|);
    if RoomForRoot(g) {
      RoomAt(g);
      FreeCounted(g, bs, RoundUp(Dupper(g, 0), g.frag) / g.frag, |bs|);
    } else {
      forall h | 0 <= h < |bs| ensures !AllFree(bs[h]) {
        FirstFree(g, h);
      }
      NoFreeBlocks(g, bs, |bs|);
    }
  }

  /** The root directory is put there. */
  lemma AllocatedFirst(g: Geom, hd: Header, mid: Header, d: nat)
    requires Fits(g, 0) && RoomForRoot(g) && Allocated(g, hd, mid, d, 1, true) && Bits(g, hd.free) == AtFirst(g, 0)
    ensures d == RoundUp(Dupper(g, 0), g.frag)
  {
    hide Agree, ClustersAgree, BlocksOf, UsedInodes, Total, Partial, AllFree, AtFirst, RoundUp, Dupper, Ndblk;
    var ru := RoundUp(Dupper(g, 0), g.frag);
    RoomAt(g);
    FirstFree(g, d / g.frag);
    NextBlock(d, g.frag);
    assert d >= ru;
    QuotientGrows(ru, d, g.frag);
    assert d / g.frag == ru / g.frag;
  }

  lemma TakenWhole(frag: nat, bs: seq<seq<bool>>, h: nat, b: seq<bool>)
    requires h < |bs|
    ensures bs[h := Partial(frag, 0, 0)][h := b] == bs[h := b]
    ensures Partial(frag, frag, frag) == Partial(frag, 0, 0)
  {
  }

  lemma AgreeLengths(g: Geom, bs: seq<seq<bool>>, cs: Csum, frsum: seq<int>, blktot: seq<int>, blks: seq<seq<int>>)
    requires Agree(g, bs, cs, frsum, blktot, blks)
    ensures g.Valid() && |bs| == g.Blocks() && |frsum| == 8 && |blktot| == |blks| == g.cpg
    ensures forall c :: 0 <= c < g.cpg ==> |blks[c]| == g.nrpos
  {
  }

  /** `FreeBlock`, on values: the bitmap and its counters. */
  lemma BlockFreed(g: Geom, free: seq<bv8>, free': seq<bv8>, h: nat,
                   cs: Csum, frsum: seq<int>, blktot: seq<int>, blks: seq<seq<int>>)
    requires g.Valid() && g.fpg <= 8 * |free| && |free'| == |free| && h < g.Blocks()
    requires Agree(g, Bits(g, free), cs, frsum, blktot, blks)
    requires forall d :: 0 <= d < 8 * |free| ==> (IsSet(free', d) <==> IsSet(free, d) || d / g.frag == h)
    requires Bits(g, free)[h] == Partial(g.frag, 0, 0)
    ensures Bits(g, free') == Bits(g, free)[h := Partial(g.frag, 0, g.frag)]
    ensures g.Cyl(h) < g.cpg == |blktot| == |blks| && forall c :: 0 <= c < g.cpg ==> |blks[c]| == g.nrpos
    ensures Agree(g, Bits(g, free'), cs.(nbfree := cs.nbfree + 1), frsum,
                  blktot[g.Cyl(h) := blktot[g.Cyl(h)] + 1], Counted(g, blks, h, 1))
  {
    hide IsSet, Agree, BlocksOf, Counted;
    AgreeLengths(g, Bits(g, free), cs, frsum, blktot, blks);
    forall d | 0 <= d < 8 * |free| ensures d / g.frag == h <==> h * g.frag <= d < h * g.frag + g.frag {
    }
    BlocksSet(g.frag, free, free', g.Blocks(), h, 0, g.frag);
    assert AllFree(Partial(g.frag, 0, g.frag)) && !Partial(g.frag, 0, 0)[0];
    WholeBlock(g, Bits(g, free), h, Partial(g.frag, 0, g.frag), cs, frsum, blktot, blks);
  }

  lemma ClusterFreed(g: Geom, bs: seq<seq<bool>>, h: nat, clusters: seq<bv8>, clusters': seq<bv8>)
    requires h < |bs| && ClustersAgree(g, bs, clusters) && |clusters'| == |clusters|
    requires g.contig > 0 ==>
      forall d :: 0 <= d < 8 * |clusters| ==> (IsSet(clusters', d) <==> IsSet(clusters, d) || d == h)
    ensures ClustersAgree(g, bs[h := Partial(g.frag, 0, g.frag)], clusters')
  {
    hide IsSet;
  }

  /** Runs of length 0 are not counted, whatever `frsum[0]` says. */
  lemma RunOfNothing(g: Geom, bs: seq<seq<bool>>, cs: Csum, frsum: seq<int>, blktot: seq<int>, blks: seq<seq<int>>)
    requires Agree(g, bs, cs, frsum, blktot, blks)
    ensures Agree(g, bs, cs.(nffree := cs.nffree + 0), frsum[0 := frsum[0] + 1], blktot, blks)
  {
    hide Total;
  }

  /** `FreePart`, on values. */
  lemma PartFreed(g: Geom, free: seq<bv8>, free': seq<bv8>, h: nat, lo: nat, hi: nat,
                  cs: Csum, frsum: seq<int>, blktot: seq<int>, blks: seq<seq<int>>, clusters: seq<bv8>)
    requires g.Valid() && g.fpg <= 8 * |free| && |free'| == |free| && h < g.Blocks()
    requires lo <= hi <= g.frag && hi - lo < g.frag
    requires Agree(g, Bits(g, free), cs, frsum, blktot, blks) && ClustersAgree(g, Bits(g, free), clusters)
    requires forall d :: 0 <= d < 8 * |free| ==>
      (IsSet(free', d) <==> IsSet(free, d) || h * g.frag + lo <= d < h * g.frag + hi)
    requires Bits(g, free)[h] == Partial(g.frag, 0, 0)
    ensures Bits(g, free') == Bits(g, free)[h := Partial(g.frag, lo, hi)] && |frsum| == 8
    ensures Agree(g, Bits(g, free'), cs.(nffree := cs.nffree + (hi - lo)),
                  frsum[hi - lo := frsum[hi - lo] + 1], blktot, blks)
    ensures ClustersAgree(g, Bits(g, free'), clusters)
  {
    hide IsSet, Agree, BlocksOf;
    AgreeLengths(g, Bits(g, free), cs, frsum, blktot, blks);
    BlocksSet(g.frag, free, free', g.Blocks(), h, lo, hi);
    if lo < hi {
      PartOfBlock(g, Bits(g, free), h, lo, hi, cs, frsum, blktot, blks);
    } else {
      RunOfNothing(g, Bits(g, free), cs, frsum, blktot, blks);
      assert Partial(g.frag, lo, hi) == Partial(g.frag, 0, 0);
      assert Bits(g, free)[h := Partial(g.frag, lo, hi)] == Bits(g, free);
    }
    assert !Partial(g.frag, lo, hi)[if lo > 0 then 0 else g.frag - 1];
    assert !Partial(g.frag, 0, 0)[0];
  }

  // ---------------------------------------------------------------- building a group, block by block

  /** The first `k` blocks are as they are in a new group, the others are still in use. */
  ghost predicate Stage(g: Geom, c: nat, bs: seq<seq<bool>>, k: nat)
    requires Fits(g, c)
  {
    |bs| == g.Blocks() && forall h :: 0 <= h < |bs| ==>
      bs[h] == if h < k then BlockAtFirst(g, c, h) else Partial(g.frag, 0, 0)
  }

  function AtFirst(g: Geom, c: nat): (bs: seq<seq<bool>>)
    requires Fits(g, c)
    ensures |bs| == g.Blocks()
  {
    seq(g.Blocks(), h requires 0 <= h < g.Blocks() => BlockAtFirst(g, c, h))
  }

  /** The block that starts at `d` in a new group. */
  function PieceAt(g: Geom, c: nat, d: nat): (b: seq<bool>)
    requires Fits(g, c)
    ensures |b| == g.frag
  {
    var lower, upper, end := Dlower(g, c), Dupper(g, c), Ndblk(g, c);
    if c > 0 && d + g.frag <= lower then Partial(g.frag, 0, g.frag)
    else if d + g.frag <= upper then Partial(g.frag, 0, 0)
    else if d < upper then Partial(g.frag, upper % g.frag, g.frag)
    else if d + g.frag <= end then Partial(g.frag, 0, g.frag)
    else if d < end then Partial(g.frag, 0, end - d)
    else Partial(g.frag, 0, 0)
  }

  lemma RoundUpIs(n: nat, m: nat)
    requires FragSize(m)
    ensures RoundUp(n, m) == if n % m == 0 then n else n + m - n % m
    ensures RoundUp(n, m) % m == 0
  {
  }

  lemma Aligned(g: Geom, c: nat)
    requires g.Valid()
    ensures Dlower(g, c) % g.frag == 0 && Dlower(g, c) <= Dupper(g, c)
    ensures c > 0 ==> Dupper(g, c) % g.frag == 0
  {
    var q, r := g.cgoffset / g.frag, c % g.stagger;
    assert g.cgoffset == q * g.frag;
    MulMod(q, r, g.frag);
    AddMod(g.cgoffset * r, g.sblkno, g.frag);
    AddMod(g.cgoffset * r, g.dblkno, g.frag);
  }

  lemma MulMod(q: nat, r: nat, m: nat)
    requires m > 0
    ensures q * m * r % m == 0
  {
    assert q * m * r == m * (q * r);
    ModOfMul(q * r, m);
  }

  lemma ModOfMul(k: nat, m: nat)
    requires m > 0
    ensures m * k % m == 0
  {
    if k > 0 {
      ModOfMul(k - 1, m);
      AddMod(m * (k - 1), m, m);
      assert m * k == m * (k - 1) + m;
    }
  }

  lemma AddMod(a: nat, b: nat, m: nat)
    requires m > 0 && a % m == 0 && b % m == 0
    ensures (a + b) % m == 0
  {
    var x, y: int := a / m, b / m;
    var q: int, r := (a + b) / m, (a + b) % m;
    assert m * x + m * y == m * q + r;
    var k := x + y - q;
    assert m * k == r;
    assert k >= 1 ==> m * k >= m;
  }

  lemma PieceIs(g: Geom, c: nat, h: nat)
    requires Fits(g, c) && h < g.Blocks()
    ensures BlockAtFirst(g, c, h) == PieceAt(g, c, h * g.frag)
  {
    hide RoundUp, Dlower, Dupper, Ndblk;
    Aligned(g, c);
    RoundUpIs(Dupper(g, c), g.frag);
    var ru, d := RoundUp(Dupper(g, c), g.frag), h * g.frag;
    MultipleOf(g.frag, h, Dlower(g, c), Dupper(g, c), ru);
    var b, p := BlockAtFirst(g, c, h), PieceAt(g, c, d);
    forall i | 0 <= i < g.frag ensures b[i] == p[i] {
      assert b[i] == FreeAtFirst(g, c, d + i);
    }
  }

  lemma MultipleOf(m: nat, h: nat, lower: nat, upper: nat, ru: nat)
    requires FragSize(m) && lower % m == 0 && ru % m == 0
    requires ru == if upper % m == 0 then upper else upper + m - upper % m
    ensures h * m < lower ==> h * m + m <= lower
    ensures h * m < ru ==> h * m + m <= ru
    ensures h * m < ru && upper % m == 0 ==> h * m + m <= upper
    ensures h * m < ru && h * m + m != ru ==> h * m + m <= upper
    ensures upper % m != 0 && h * m + m == ru ==> upper == h * m + upper % m
  {
    hide FragSize;
    RemainderBelow(upper, m);
    var d, u := h * m, upper % m;
    StepBelow(h, lower, m);
    StepBelow(h, ru, m);
    StepBelow(h + 1, ru, m);
    assert (h + 1) * m == d + m;
  }

  lemma RemainderBelow(n: nat, m: nat)
    requires FragSize(m)
    ensures m > 0 && 0 <= n % m < m && n % m <= n
  {
  }

  /** Multiples are at least `m` apart. */
  lemma StepBelow(h: nat, n: nat, m: nat)
    requires FragSize(m) && n % m == 0
    ensures h * m < n ==> h * m + m <= n
  {
    var q := n / m;
    assert n == q * m;
    assert h * m + (q - h) * m == q * m;
    assert q - h <= 0 ==> (q - h) * m <= 0;
    assert q - h >= 1 ==> (q - h) * m >= m;
  }


  /** The next block is put in place. */
  lemma StageNext(g: Geom, c: nat, bs: seq<seq<bool>>, d: nat)
    requires Fits(g, c) && d % g.frag == 0 && d / g.frag < g.Blocks() && Stage(g, c, bs, d / g.frag)
    ensures bs[d / g.frag] == Partial(g.frag, 0, 0)
    ensures Stage(g, c, bs[d / g.frag := PieceAt(g, c, d)], d / g.frag + 1)
    ensures d + g.frag <= g.fpg && (d + g.frag) / g.frag == d / g.frag + 1 && (d + g.frag) % g.frag == 0
  {
    hide PieceAt, BlockAtFirst;
    NextBlock(d, g.frag);
    PieceIs(g, c, d / g.frag);
    FirstFragment(g, d / g.frag);
  }

  lemma NextBlock(d: nat, m: nat)
    requires FragSize(m) && d % m == 0
    ensures d / m * m == d && (d + m) / m == d / m + 1 && (d + m) % m == 0
  {
  }

  /** Blocks that stay in use are passed over. */
  lemma {:induction false} StageSkip(g: Geom, c: nat, bs: seq<seq<bool>>, k: nat, n: nat)
    requires Fits(g, c) && k <= n <= g.Blocks() && Stage(g, c, bs, k)
    requires forall h :: k <= h < n ==> PieceAt(g, c, h * g.frag) == Partial(g.frag, 0, 0)
    ensures Stage(g, c, bs, n)
  {
    hide PieceAt, BlockAtFirst;
    forall h | k <= h < n ensures BlockAtFirst(g, c, h) == Partial(g.frag, 0, 0) {
      PieceIs(g, c, h);
    }
  }

  lemma {:induction false} NoneUsed(used: seq<bv8>, n: nat)
    requires n <= 8 * |used| && forall i :: 0 <= i < |used| ==> used[i] == 0
    ensures UsedInodes(used, n) == 0
    ensures forall d :: 0 <= d < 8 * |used| ==> !IsSet(used, d)
  {
    if n > 0 {
      NoneUsed(used, n - 1);
    }
  }

  lemma {:induction false} NothingFree(g: Geom, w: Weight, bs: seq<seq<bool>>, n: nat)
    requires g.Valid() && n <= |bs| <= g.Blocks() && forall h :: 0 <= h < |bs| ==> bs[h] == Partial(g.frag, 0, 0)
    ensures Sum(g, w, bs, n) == 0
  {
    hide WeightOf;
    if n > 0 {
      NothingFree(g, w, bs, n - 1);
      UsedWeights(g, n - 1, bs[n - 1], w);
    }
  }

  /** A cleared header agrees with its cleared maps. */
  lemma AllInUse(g: Geom, free: seq<bv8>, clusters: seq<bv8>, frsum: seq<int>, blktot: seq<int>, blks: seq<seq<int>>)
    requires g.Valid() && g.fpg <= 8 * |free| && g.Blocks() / 8 < |clusters|
    requires (forall i :: 0 <= i < |free| ==> free[i] == 0) && forall i :: 0 <= i < |clusters| ==> clusters[i] == 0
    requires frsum == seq(8, _ => 0) && blktot == seq(g.cpg, _ => 0) && blks == seq(g.cpg, _ => seq(g.nrpos, _ => 0))
    ensures Bits(g, free) == seq(g.Blocks(), _ => Partial(g.frag, 0, 0))
    ensures Agree(g, Bits(g, free), Csum(0, 0, 0, 0), frsum, blktot, blks)
    ensures ClustersAgree(g, Bits(g, free), clusters)
  {
    hide IsSet;
    NoneUsed(free, 0);
    NoneUsed(clusters, 0);
    var bs := Bits(g, free);
    forall h | 0 <= h < g.Blocks() ensures bs[h] == Partial(g.frag, 0, 0) {
      forall i | 0 <= i < g.frag ensures !bs[h][i] {
        assert bs[h][i] == FragmentSet(g.frag, free, g.Blocks(), h, i);
      }
    }
    forall w: Weight ensures Total(g, w, bs) == 0 {
      NothingFree(g, w, bs, |bs|);
    }
    assert !Partial(g.frag, 0, 0)[0];
  }

  lemma StageStart(g: Geom, c: nat, bs: seq<seq<bool>>)
    requires Fits(g, c) && bs == seq(g.Blocks(), _ => Partial(g.frag, 0, 0))
    ensures Stage(g, c, bs, 0)
  {
  }

  lemma BlockBelow(g: Geom, d: nat)
    requires g.Valid() && d % g.frag == 0 && d + g.frag <= g.fpg
    ensures d / g.frag < g.Blocks()
  {
  }

  lemma OneMore(n: int, m: nat)
    ensures (n + 1) * m == n * m + m
  {
  }

  lemma StageEnd(g: Geom, c: nat, bs: seq<seq<bool>>)
    requires Fits(g, c) && Stage(g, c, bs, g.Blocks())
    ensures bs == AtFirst(g, c)
  {
    hide BlockAtFirst;
  }

  lemma Bounds(g: Geom, c: nat)
    requires Fits(g, c)
    ensures var lower, upper, end := Dlower(g, c), Dupper(g, c), Ndblk(g, c);
      var ru := RoundUp(upper, g.frag);
      && lower % g.frag == 0 && lower <= upper <= ru <= g.fpg && lower <= end <= g.fpg
      && (ru == if upper % g.frag == 0 then upper else upper + g.frag - upper % g.frag)
      && (c > 0 ==> upper == ru) && ru % g.frag == 0 && g.frag > 0 && upper % g.frag <= upper
  {
    Aligned(g, c);
    RoundUpIs(Dupper(g, c), g.frag);
  }

  /** The blocks from `lo` up to `hi` are free as a whole in a new group. */
  ghost predicate WholeFrom(g: Geom, c: nat, lo: nat, hi: nat)
    requires Fits(g, c)
  {
    forall e :: lo <= e && e % g.frag == 0 && e + g.frag <= hi ==> PieceAt(g, c, e) == Partial(g.frag, 0, g.frag)
  }

  lemma WholeBlocksBelow(g: Geom, c: nat)
    requires Fits(g, c) && c > 0
    ensures WholeFrom(g, c, 0, Dlower(g, c))
  {
  }

  lemma WholeBlocksAbove(g: Geom, c: nat)
    requires Fits(g, c)
    ensures WholeFrom(g, c, RoundUp(Dupper(g, c), g.frag), Ndblk(g, c))
  {
    hide Dlower, Dupper, Ndblk, RoundUp, Partial;
    Bounds(g, c);
  }

  lemma BelowBound(d: nat, n: nat, m: nat)
    requires FragSize(m) && n % m == 0
    ensures (d < n ==> d / m < n / m) && (d <= n ==> d / m <= n / m)
  {
  }

  /** The block that `upper` cuts. */
  lemma UpperBlock(g: Geom, c: nat)
    requires Fits(g, c) && Dupper(g, c) % g.frag != 0
    ensures var upper, m := Dupper(g, c), g.frag;
      var d := upper - upper % m;
      && d % m == 0 && d / m == upper / m < g.Blocks() && PieceAt(g, c, d) == Partial(m, upper % m, m)
      && d + m == RoundUp(upper, m)
  {
    hide Dlower, Dupper, Ndblk, RoundUp, Partial;
    Bounds(g, c);
    BelowBound(Dupper(g, c), g.fpg, g.frag);
  }

  /** The block that the end of the group cuts. */
  lemma LastPiece(g: Geom, c: nat, d: nat)
    requires Fits(g, c) && d % g.frag == 0 && RoundUp(Dupper(g, c), g.frag) <= d < Ndblk(g, c) < d + g.frag
    ensures d / g.frag < g.Blocks() && PieceAt(g, c, d) == Partial(g.frag, 0, Ndblk(g, c) - d)
    ensures d + g.frag <= g.fpg && (d + g.frag) % g.frag == 0
  {
    hide Dlower, Dupper, Ndblk, RoundUp, Partial;
    Bounds(g, c);
    BelowBound(d, g.fpg, g.frag);
    NextBlock(d, g.frag);
    FirstFragment(g, d / g.frag);
  }

  /** Between the two free stretches nothing is free. */
  lemma StageGap(g: Geom, c: nat, bs: seq<seq<bool>>, d: nat)
    requires Fits(g, c) && d == (if c > 0 then Dlower(g, c) else 0) && Stage(g, c, bs, d / g.frag)
    ensures Stage(g, c, bs, Dupper(g, c) / g.frag)
  {
    hide Dlower, Dupper, Ndblk, RoundUp, Partial, Stage;
    Bounds(g, c);
    BelowBound(Dupper(g, c), g.fpg, g.frag);
    BelowBound(d, d, g.frag);
    var k, n := d / g.frag, Dupper(g, c) / g.frag;
    forall h | k <= h < n ensures PieceAt(g, c, h * g.frag) == Partial(g.frag, 0, 0) {
      Between(h, d, Dupper(g, c), g.frag);
    }
    QuotientGrows(d, Dupper(g, c), g.frag);
    StageSkip(g, c, bs, k, n);
  }

  lemma SameMultiple(d: nat, n: nat, m: nat)
    requires FragSize(m) && d % m == 0 && n % m == 0 && d <= n < d + m
    ensures d == n && 0 / m == 0 % m == 0
  {
  }

  lemma Between(h: nat, lo: nat, hi: nat, m: nat)
    requires FragSize(m) && lo % m == 0 && lo / m <= h < hi / m
    ensures lo <= h * m && h * m + m <= hi
  {
  }

  /** Nothing is free behind the end. */
  lemma StageRest(g: Geom, c: nat, bs: seq<seq<bool>>, d: nat)
    requires Fits(g, c) && d % g.frag == 0 && d <= g.fpg && Stage(g, c, bs, d / g.frag)
    requires Ndblk(g, c) <= d && RoundUp(Dupper(g, c), g.frag) <= d
    ensures Stage(g, c, bs, g.Blocks())
  {
    hide Dlower, Dupper, Ndblk, RoundUp, Partial, Stage;
    Bounds(g, c);
    var k, n := d / g.frag, g.Blocks();
    forall h | k <= h < n ensures PieceAt(g, c, h * g.frag) == Partial(g.frag, 0, 0) {
      Between(h, d, g.fpg, g.frag);
    }
    QuotientGrows(d, g.fpg, g.frag);
    StageSkip(g, c, bs, k, n);
  }

  /** Free fragments are counted with their block or in `nffree`. */
  lemma AllCounted(g: Geom, bs: seq<seq<bool>>, cs: Csum, frsum: seq<int>, blktot: seq<int>, blks: seq<seq<int>>)
    requires Agree(g, bs, cs, frsum, blktot, blks) && forall h :: 0 <= h < |bs| ==> |bs[h]| == g.frag
    ensures Total(g, AnyFrag, bs) == Freed(g.frag, cs)
  {
    FreeSplits(g, bs, |bs|);
  }

  /** The last partial block of a short group is not in the cluster map. */
  lemma EndBlock(g: Geom, end: nat)
    requires g.Valid() && end <= g.fpg
    ensures end / g.frag <= g.Blocks()
  {
  }

  /** The free blocks of a new group begin before its end. */
  lemma FreeBlocksInside(g: Geom, c: nat, h: nat)
    requires Fits(g, c) && h < g.Blocks() && AllFree(AtFirst(g, c)[h])
    ensures h * g.frag < Ndblk(g, c)
  {
    hide Dlower, Dupper, Ndblk, RoundUp, Partial, BlockAtFirst;
    Bounds(g, c);
    PieceIs(g, c, h);
    MultipleOf(g.frag, h, Dlower(g, c), Dupper(g, c), RoundUp(Dupper(g, c), g.frag));
    WholePiece(g.frag, 0, 0);
    WholePiece(g.frag, Dupper(g, c) % g.frag, g.frag);
  }

  lemma WholePiece(frag: nat, lo: nat, hi: nat)
    requires lo <= hi <= frag && frag > 0
    ensures AllFree(Partial(frag, lo, hi)) ==> lo == 0 && hi == frag
  {
    var b := Partial(frag, lo, hi);
    assert AllFree(b) ==> b[0] && b[frag - 1];
  }

  /** The cluster map, read as a list of bits, says which blocks are free. */
  lemma ClusterBits(g: Geom, bs: seq<seq<bool>>, clusters: seq<bv8>, n: nat)
    requires ClustersAgree(g, bs, clusters) && g.contig > 0 && n <= |bs|
    ensures ClusterSum.BitsOf(clusters, n) == FreeBlockList(g, bs, n)
  {
    hide IsSet;
  }

  lemma IsNew(g: Geom, c: nat, hd: Header)
    requires Fits(g, c) && Shaped(g, |hd.free|, |hd.clusters|, |hd.inodes|) && hd.magic == CG_MAGIC
    requires Agree(g, Bits(g, hd.free), hd.cs, hd.frsum, hd.blktot, hd.blks)
    requires ClustersAgree(g, Bits(g, hd.free), hd.clusters)
    requires hd.cs.nifree == g.ipg - UsedInodes(hd.inodes, g.ipg)
    requires hd.ndblk == Ndblk(g, c) && hd.cs.ndir == 0 && Bits(g, hd.free) == AtFirst(g, c)
    requires forall i :: 0 <= i < g.ipg ==> (IsSet(hd.inodes, i) <==> c == 0 && i < ROOTINO)
    requires g.contig > 0 ==> ClustersCounted(g, hd)
    ensures New(g, c, hd) && Sound(g, hd)
  {
    hide Agree, ClustersAgree, ClustersCounted, AtFirst, BlocksOf, UsedInodes, IsSet;
    Bounds(g, c);
    forall h | 0 <= h < g.Blocks() && AllFree(Bits(g, hd.free)[h]) ensures h * g.frag < hd.ndblk {
      FreeBlocksInside(g, c, h);
    }
  }

  lemma {:induction false} SumCsSame(a: seq<Csum>, b: seq<Csum>, n: nat)
    requires n <= |a| && n <= |b| && forall i :: 0 <= i < n ==> a[i] == b[i]
    ensures SumCs(a, n) == SumCs(b, n)
  {
    if n > 0 {
      SumCsSame(a, b, n - 1);
    }
  }

  lemma OneMoreGroup(g: Geom, disk: seq<Header>, disk': seq<Header>, fscs: seq<Csum>, cstotal: Csum, c: nat)
    requires c < |disk| == |disk'| && disk' == disk[c := disk'[c]] && Sound(g, disk'[c])
    requires var hd := disk'[c];
      Stored(g, |hd.free|, |hd.clusters|, |hd.inodes|, disk, fscs, cstotal, c)
    ensures var hd := disk'[c];
      Stored(g, |hd.free|, |hd.clusters|, |hd.inodes|, disk', fscs[c := hd.cs], Plus(cstotal, hd.cs), c + 1)
  {
    hide Sound;
    SumCsSame(fscs, fscs[c := disk'[c].cs], c);
  }

  // ---------------------------------------------------------------- allocating

  lemma MultipleBelow(k: nat, m: nat, n: nat)
    requires FragSize(m) && n % m == 0 && k * m < n
    ensures k * m / m == k < n / m && k * m % m == 0
  {
  }

  lemma Monotone(k: nat, h: nat, m: nat)
    ensures h >= k ==> k * m <= h * m
  {
    if h >= k {
      assert h * m == k * m + (h - k) * m;
    }
  }

  /** The count of directories is independent of the bitmap. */
  lemma DirectoriesApart(g: Geom, bs: seq<seq<bool>>, cs: Csum, ndir: int,
                         frsum: seq<int>, blktot: seq<int>, blks: seq<seq<int>>)
    requires Agree(g, bs, cs, frsum, blktot, blks)
    ensures Agree(g, bs, cs.(ndir := ndir), frsum, blktot, blks)
  {
    hide Total;
  }

  /** `TakeBlock`, on values. */
  lemma BlockTaken(g: Geom, free: seq<bv8>, free': seq<bv8>, h: nat,
                   cs: Csum, frsum: seq<int>, blktot: seq<int>, blks: seq<seq<int>>)
    requires g.Valid() && g.fpg <= 8 * |free| && |free'| == |free| && h < g.Blocks()
    requires Agree(g, Bits(g, free), cs, frsum, blktot, blks)
    requires forall d :: 0 <= d < 8 * |free| ==> (IsSet(free', d) <==> IsSet(free, d) && d / g.frag != h)
    requires AllFree(Bits(g, free)[h])
    ensures Bits(g, free') == Bits(g, free)[h := Partial(g.frag, 0, 0)]
    ensures g.Cyl(h) < g.cpg == |blktot| == |blks| && forall c :: 0 <= c < g.cpg ==> |blks[c]| == g.nrpos
    ensures Agree(g, Bits(g, free'), cs.(nbfree := cs.nbfree - 1), frsum,
                  blktot[g.Cyl(h) := blktot[g.Cyl(h)] - 1], Counted(g, blks, h, -1))
  {
    hide IsSet, Agree, BlocksOf, Counted;
    AgreeLengths(g, Bits(g, free), cs, frsum, blktot, blks);
    BlocksCleared(g.frag, free, free', g.Blocks(), h);
    assert !Partial(g.frag, 0, 0)[0];
    WholeBlock(g, Bits(g, free), h, Partial(g.frag, 0, 0), cs, frsum, blktot, blks);
  }

  lemma ClusterTaken(g: Geom, bs: seq<seq<bool>>, h: nat, clusters: seq<bv8>, clusters': seq<bv8>)
    requires h < |bs| && ClustersAgree(g, bs, clusters) && |clusters'| == |clusters| && g.frag > 0
    requires g.contig > 0 ==>
      forall d :: 0 <= d < 8 * |clusters| ==> (IsSet(clusters', d) <==> IsSet(clusters, d) && d != h)
    ensures ClustersAgree(g, bs[h := Partial(g.frag, 0, 0)], clusters')
  {
    hide IsSet;
    assert !Partial(g.frag, 0, 0)[0];
  }

  lemma {:induction false} NoFreeBlocks(g: Geom, bs: seq<seq<bool>>, n: nat)
    requires g.Valid() && n <= |bs| <= g.Blocks() && forall h :: 0 <= h < |bs| ==> !AllFree(bs[h])
    ensures Sum(g, FreeBlocks, bs, n) == 0
  {
    if n > 0 {
      NoFreeBlocks(g, bs, n - 1);
    }
  }

  /** When the header counts a free block, the search finds one. */
  lemma SomeFree(g: Geom, hd: Header)
    requires Sound(g, hd) && hd.cs.nbfree != 0
    ensures exists h :: 0 <= h < g.Blocks() && AllFree(Bits(g, hd.free)[h]) && h * g.frag < hd.ndblk
  {
    var bs := Bits(g, hd.free);
    if forall h :: 0 <= h < |bs| ==> !AllFree(bs[h]) {
      NoFreeBlocks(g, bs, |bs|);
    }
  }

  lemma HowMany(size: nat, fsize: nat, frag: nat)
    requires 0 < size <= frag * fsize && fsize > 0
    ensures var n := (size + fsize - 1) / fsize; 0 < n <= frag && (size == frag * fsize ==> n == frag)
  {
    var n := (size + fsize - 1) / fsize;
    assert n * fsize <= size + fsize - 1 < n * fsize + fsize;
    var over, under: int := n - frag - 1, frag - 1 - n;
    assert n * fsize == frag * fsize + fsize + over * fsize;
    assert over >= 0 ==> over * fsize >= 0;
    assert frag * fsize == n * fsize + fsize + under * fsize;
    assert under >= 0 ==> under * fsize >= 0;
  }

  lemma IsAllocated(g: Geom, hd: Header, hd': Header, d: nat, frags: nat, isDir: bool)
    requires Sound(g, hd) && Shaped(g, |hd'.free|, |hd'.clusters|, |hd'.inodes|) && 0 < frags <= g.frag
    requires d % g.frag == 0 && d / g.frag < g.Blocks() && AllFree(Bits(g, hd.free)[d / g.frag])
    requires forall h :: 0 <= h < d / g.frag ==> !AllFree(Bits(g, hd.free)[h])
    requires Bits(g, hd'.free) == Bits(g, hd.free)[d / g.frag := Partial(g.frag, frags, g.frag)]
    requires Agree(g, Bits(g, hd'.free), hd'.cs, hd'.frsum, hd'.blktot, hd'.blks)
    requires ClustersAgree(g, Bits(g, hd'.free), hd'.clusters)
    requires hd'.magic == hd.magic && hd'.inodes == hd.inodes && hd'.ndblk == hd.ndblk
    requires hd'.cs.nifree == hd.cs.nifree && hd'.cs.ndir == hd.cs.ndir + if isDir then 1 else 0
    ensures Allocated(g, hd, hd', d, frags, isDir)
  {
    hide Agree, ClustersAgree, BlocksOf, UsedInodes, Total;
    var h, b := d / g.frag, Partial(g.frag, frags, g.frag);
    TotalUpdate(g, AnyFrag, Bits(g, hd.free), h, b);
    assert !b[0];
    FreeWeights(g, h, Bits(g, hd.free)[h], AnyFrag);
    if frags < g.frag {
      PartialWeights(g, h, frags, g.frag, AnyFrag);
    } else {
      UsedWeights(g, h, b, AnyFrag);
    }
  }

  lemma {:induction false} SumCsChange(fscs: seq<Csum>, x: Csum, n: nat)
    requires 0 < n <= |fscs|
    ensures Plus(SumCs(fscs[0 := x], n), fscs[0]) == Plus(SumCs(fscs, n), x)
  {
    if n == 1 {
      assert SumCs(fscs, 0) == SumCs(fscs[0 := x], 0);
    } else {
      SumCsChange(fscs, x, n - 1);
    }
  }

  /** A change of group 0 that the summary area and the superblock follow. */
  lemma GroupChanged(g: Geom, disk: seq<Header>, fscs: seq<Csum>, cstotal: Csum, hd: Header, n: nat)
    requires 0 < n && Stored(g, |hd.free|, |hd.clusters|, |hd.inodes|, disk, fscs, cstotal, n) && Sound(g, hd)
    ensures forall total: Csum :: Plus(total, fscs[0]) == Plus(cstotal, hd.cs) ==>
      Stored(g, |hd.free|, |hd.clusters|, |hd.inodes|, disk[0 := hd], fscs[0 := hd.cs], total, n)
  {
    hide Sound, SumCs;
    SumCsChange(fscs, hd.cs, n);
  }

  /** Marking an inode keeps the count of free inodes right exactly when it is one of the group's and was
      free before. */
  lemma InodeTaken(g: Geom, hd: Header, inodes: seq<bv8>, ino: nat)
    requires Sound(g, hd) && |inodes| == |hd.inodes| && ino < 8 * |inodes|
    requires forall d :: 0 <= d < 8 * |inodes| ==> (IsSet(inodes, d) <==> IsSet(hd.inodes, d) || d == ino)
    ensures Sound(g, WithInodes(hd, inodes)) <==> ino < g.ipg && !IsSet(hd.inodes, ino)
  {
    hide IsSet, BlocksOf, UsedInodes, ClustersAgree, Total;
    OneMoreUsed(hd.inodes, inodes, ino, g.ipg);
  }

  lemma InodeMarked(g: Geom, disk: seq<Header>, fscs: seq<Csum>, cstotal: Csum, inodes: seq<bv8>, ino: nat, n: nat)
    requires 0 < n && n <= |disk| && |inodes| == |disk[0].inodes| && ino < 8 * |inodes|
    requires Stored(g, |disk[0].free|, |disk[0].clusters|, |inodes|, disk, fscs, cstotal, n)
    requires forall d :: 0 <= d < 8 * |inodes| ==> (IsSet(inodes, d) <==> IsSet(disk[0].inodes, d) || d == ino)
    ensures var hd := WithInodes(disk[0], inodes);
      Stored(g, |hd.free|, |hd.clusters|, |inodes|, disk[0 := hd], fscs[0 := hd.cs],
             cstotal.(nifree := cstotal.nifree - 1), n)
      <==> ino < g.ipg && !IsSet(disk[0].inodes, ino)
  {
    hide Sound, IsSet, SumCs;
    assert Sound(g, disk[0]) && disk[0].cs == fscs[0];
    var hd, total := WithInodes(disk[0], inodes), cstotal.(nifree := cstotal.nifree - 1);
    InodeTaken(g, disk[0], inodes, ino);
    assert Plus(total, fscs[0]) == Plus(cstotal, hd.cs);
    if Sound(g, hd) {
      GroupChanged(g, disk, fscs, cstotal, hd, n);
    } else {
      assert disk[0 := hd][0] == hd;
    }
  }

  // ---------------------------------------------------------------- the layout checks

  /** `mkfs` looks at the group with the largest offset and at the last group. */
  ghost predicate LayoutChecked(g: Geom) {
    && g.Valid()
    && (var i := if g.stagger < g.ncg then g.stagger - 1 else g.ncg - 1; Offset(g, i) + g.dblkno < g.fpg)
    && (var j := g.ncg - 1;
        && j * g.fpg <= g.size
        && (g.size - j * g.fpg < g.fpg ==> Offset(g, j) + g.dblkno <= g.size - j * g.fpg))
  }

  /** No group has a larger offset than the one that is looked at. */
  lemma LargestOffset(g: Geom, c: nat)
    requires g.Valid() && c < g.ncg
    ensures Offset(g, c) <= Offset(g, if g.stagger < g.ncg then g.stagger - 1 else g.ncg - 1)
  {
    var i := if g.stagger < g.ncg then g.stagger - 1 else g.ncg - 1;
    SmallRemainder(c, g.stagger);
    SmallRemainder(i, g.stagger);
    OffsetGrows(g, c % g.stagger, i % g.stagger);
  }

  lemma SmallRemainder(c: nat, m: nat)
    requires m > 0
    ensures c % m <= c && c % m < m && (c < m ==> c % m == c)
  {
  }

  /** Only the last group can be short. */
  lemma OnlyLastShort(g: Geom, c: nat)
    requires g.ncg > 0 && c < g.ncg && (g.ncg - 1) * g.fpg <= g.size
    ensures c * g.fpg <= g.size
    ensures Ndblk(g, c) == if c < g.ncg - 1 || g.size - c * g.fpg >= g.fpg then g.fpg else g.size - c * g.fpg
  {
    Monotone(c, g.ncg - 1, g.fpg);
    Monotone(c + 1, g.ncg - 1, g.fpg);
    OneMore(c, g.fpg);
  }

  /** Those two checks are enough for all groups; only the summary area of group 0 is not checked. */
  lemma CheckedGroupsFit(g: Geom, c: nat)
    requires LayoutChecked(g) && c < g.ncg
    ensures Fits(g, c) <==> c > 0 || RoundUp(Dupper(g, 0), g.frag) <= g.fpg
  {
    hide RoundUp, Offset, Ndblk;
    LargestOffset(g, c);
    OnlyLastShort(g, c);
    Aligned(g, c);
    RoundUpIs(Dupper(g, c), g.frag);
  }

  /** All groups fit exactly when the summary area ends within group 0. */
  lemma SummaryDecides(g: Geom)
    requires LayoutChecked(g)
    ensures AllFit(g) <==> Dupper(g, 0) <= g.fpg
  {
    hide RoundUp, Offset, Ndblk, LayoutChecked, Fits;
    assert g.Valid() && g.ncg > 0 by {
      CheckedIsValid(g);
    }
    forall c | 0 <= c < g.ncg ensures Fits(g, c) <==> c > 0 || RoundUp(Dupper(g, 0), g.frag) <= g.fpg {
      CheckedGroupsFit(g, c);
    }
    assert Fits(g, 0) <==> RoundUp(Dupper(g, 0), g.frag) <= g.fpg;
    RoundUpIs(Dupper(g, 0), g.frag);
    RemainderBelow(Dupper(g, 0), g.frag);
    if Dupper(g, 0) <= g.fpg {
      UpToMultiple(Dupper(g, 0), g.fpg, g.frag);
    }
  }

  lemma CheckedIsValid(g: Geom)
    requires LayoutChecked(g)
    ensures g.Valid() && g.ncg > 0
  {
  }

  lemma UpToMultiple(n: nat, m: nat, frag: nat)
    requires FragSize(frag) && m % frag == 0 && n <= m
    ensures n % frag != 0 ==> n + frag - n % frag <= m
  {
  }

  /** A disk of 6000 groups that passes the checks: the summary area takes 94 fragments and runs over the end
      of group 0. */
  lemma SummaryOverruns(g: Geom)
    requires g == Geom(8, 128, 2, 2, 128, 8, 64, 0, [0, 2, 4, 6, 0, 2, 4, 6, 0, 2, 4, 6, 0, 2, 4, 6],
                       768000, 6000, 16, 40, 32, 2, 94)
    ensures LayoutChecked(g) && Dupper(g, 0) == 134 > g.fpg && !AllFit(g)
  {
    assert g.Valid();
    assert Offset(g, 0) == 0;
    SummaryDecides(g);
  }

  /** A disk of 42 fragments that passes the checks: two heads of 64 sectors, blocks of 8 KB and fragments of
      1 KB.  Its end falls into the block that the summary area ends in, so that six fragments behind the
      end of the disk become free, and there is no room for the root directory. */
  lemma OverhangHappens(g: Geom)
    requires g == Geom(8, 128, 2, 2, 128, 8, 64, 0, [0, 2, 4, 6, 0, 2, 4, 6, 0, 2, 4, 6, 0, 2, 4, 6],
                       42, 1, 16, 40, 32, 2, 1)
    ensures LayoutChecked(g) && Fits(g, 0) && Overhang(g, 0) == 6 && !RoomForRoot(g)
  {
    assert g.Valid();
    assert Offset(g, 0) == 0;
    assert RoundUp(41, 8) == 48;
  }

  lemma OffsetGrows(g: Geom, a: nat, b: nat)
    requires a <= b
    ensures g.cgoffset * a <= g.cgoffset * b
  {
    assert g.cgoffset * b == g.cgoffset * a + g.cgoffset * (b - a);
  }
}
