/** Cylinder groups in numbers: where the metadata of each group lies, what the counters count, and a disk of
    two groups. */
module CgExamples {
  import opened Common
  import opened BlockMap
  import opened CgSpec
  import opened CylGroups
  import Runs

  // ---------------------------------------------------------------- where the metadata lies

  /** In a group behind the first one everything is free but the stretch from the copy of the superblock to
      the last inode, which starts `cgoffset` fragments further on in each group of a cycle. */
  lemma FreeBehind(g: Geom, c: nat, d: nat)
    requires Fits(g, c) && c > 0 && d < g.fpg
    ensures FreeAtFirst(g, c, d) <==>
      || d < g.cgoffset * (c % g.stagger) + g.sblkno
      || (d >= g.cgoffset * (c % g.stagger) + g.dblkno && c * g.fpg + d < g.size)
  {
    hide RoundUp;
    Aligned(g, c);
    RoundUpIs(Dupper(g, c), g.frag);
  }

  /** In the first group nothing is free below the summary area; behind it everything is, and also what is
      left of the block in which it ends. */
  lemma FreeInFirst(g: Geom, d: nat)
    requires Fits(g, 0) && d < g.fpg
    ensures FreeAtFirst(g, 0, d) <==>
      d >= g.dblkno + g.csFrags && (d < g.size || d < RoundUp(g.dblkno + g.csFrags, g.frag))
  {
    hide RoundUp;
    NoTurn(g);
  }

  lemma NoTurn(g: Geom)
    requires g.Valid()
    ensures Offset(g, 0) == 0
  {
    assert 0 % g.stagger == 0;
  }

  /** From one group to the next the stretch moves on by `cgoffset`, until a cycle is over. */
  lemma NextOffset(g: Geom, c: nat)
    requires g.Valid() && c > 0
    ensures (c + 1) % g.stagger != 0 ==>
      Dlower(g, c + 1) == Dlower(g, c) + g.cgoffset && Dupper(g, c + 1) == Dupper(g, c) + g.cgoffset
    ensures c % g.stagger == 0 ==> Dlower(g, c) == g.sblkno && Dupper(g, c) == g.dblkno
  {
    NextRemainder(c, g.stagger);
    var r, o := c % g.stagger, g.cgoffset;
    assert o * (r + 1) == o * r + o;
  }

  lemma NextRemainder(c: nat, m: nat)
    requires m > 0
    ensures (c + 1) % m == if c % m + 1 == m then 0 else c % m + 1
  {
    var q, r := c / m, c % m;
    assert c + 1 == q * m + (r + 1);
    if r + 1 == m {
      assert (q + 1) * m == q * m + m;
      QuotientOf(c + 1, q + 1, 0, m);
    } else {
      QuotientOf(c + 1, q, r + 1, m);
    }
  }

  lemma QuotientOf(n: nat, q: int, r: nat, m: int)
    requires m > 0 && r < m && n == q * m + r
    ensures n % m == r
  {
    var e := n / m - q;
    assert e * m == r - n % m;
    assert e >= 1 ==> e * m >= m;
    assert e <= -1 ==> e * m <= -m;
  }

  /** The metadata of group `c`, rounded up to a block, ends within the group. */
  predicate BlocksEndInside(g: Geom, c: nat) {
    Fits(g, c) && RoundUp(Dupper(g, c), g.frag) <= Ndblk(g, c)
  }

  lemma NoOverhangExactly(g: Geom)
    requires AllFit(g)
    ensures NoOverhang(g) <==> forall c :: 0 <= c < g.ncg ==> BlocksEndInside(g, c)
  {
    hide Fits, RoundUp, Dupper, Ndblk;
    forall c | 0 <= c < g.ncg ensures Overhang(g, c) == 0 <==> BlocksEndInside(g, c) {
      assert Fits(g, c);
      assert g.Valid() && c * g.fpg <= g.size by { LaidOut(g, c); }
    }
  }

  lemma LaidOut(g: Geom, c: nat)
    requires Fits(g, c)
    ensures g.Valid() && c * g.fpg <= g.size
  {
  }

  /** When the metadata itself ends within the group, that is to say that nothing behind its end is free. */
  lemma NothingFreeBehind(g: Geom, c: nat)
    requires Fits(g, c) && Dupper(g, c) <= Ndblk(g, c)
    ensures BlocksEndInside(g, c) <==> forall d :: 0 <= d < g.fpg && FreeAtFirst(g, c, d) ==> d < Ndblk(g, c)
  {
    hide RoundUp, Dupper, Dlower, Ndblk;
    var e := Ndblk(g, c);
    assert !BlocksEndInside(g, c) ==> FreeAtFirst(g, c, e) && e < g.fpg;
  }

  /** In group `c` the inodes end before the group does. */
  predicate EndsInside(g: Geom, c: nat)
    requires g.stagger > 0
  {
    var end := g.cgoffset * (c % g.stagger) + g.dblkno;
    end < g.fpg && (c * g.fpg + g.fpg > g.size ==> c * g.fpg + end <= g.size)
  }

  /** The checks of `mkfs` look at two groups, but they hold exactly when it is so in every group. */
  lemma CheckedExactly(g: Geom)
    requires g.Valid() && (g.ncg - 1) * g.fpg <= g.size
    ensures LayoutChecked(g) <==> forall c :: 0 <= c < g.ncg ==> EndsInside(g, c)
  {
    hide Offset, LayoutChecked, EndsInside;
    if LayoutChecked(g) {
      forall c | 0 <= c < g.ncg ensures EndsInside(g, c) {
        CheckedGroup(g, c);
      }
    }
    if forall c :: 0 <= c < g.ncg ==> EndsInside(g, c) {
      TwoGroupsDo(g, if g.stagger < g.ncg then g.stagger - 1 else g.ncg - 1);
    }
  }

  lemma CheckedGroup(g: Geom, c: nat)
    requires LayoutChecked(g) && c < g.ncg
    ensures EndsInside(g, c)
  {
    hide Offset;
    LargestOffset(g, c);
    OnlyLastShort(g, c);
    OffsetIs(g, c);
    OneMore(c, g.fpg);
  }

  lemma TwoGroupsDo(g: Geom, i: nat)
    requires g.Valid() && (g.ncg - 1) * g.fpg <= g.size && i == if g.stagger < g.ncg then g.stagger - 1 else g.ncg - 1
    requires EndsInside(g, i) && EndsInside(g, g.ncg - 1)
    ensures LayoutChecked(g)
  {
    hide Offset;
    OffsetIs(g, i);
    OffsetIs(g, g.ncg - 1);
  }

  lemma OffsetIs(g: Geom, c: nat)
    requires g.Valid()
    ensures Offset(g, c) == g.cgoffset * (c % g.stagger)
  {
  }

  // ---------------------------------------------------------------- a disk of two groups

  /** Two heads of 64 sectors, two cylinders a group, blocks of 8 KB and fragments of 1 KB. */
  function TwoGroups(): Geom {
    Geom(8, 128, 2, 2, 128, 8, 64, 0, [0, 2, 4, 6, 0, 2, 4, 6, 0, 2, 4, 6, 0, 2, 4, 6], 256, 2, 16, 40, 32, 2, 1)
  }

  lemma TwoGroupsFit()
    ensures TwoGroups().Valid() && LayoutChecked(TwoGroups()) && Fits(TwoGroups(), 0) && Fits(TwoGroups(), 1)
  {
    var g := TwoGroups();
    assert g.Valid();
    assert Offset(g, 0) == 0 && Offset(g, 1) == 32;
    assert RoundUp(41, 8) == 48 && RoundUp(72, 8) == 72;
  }

  /** In the first group fragments 0 to 40 are in use, in the second one fragments 48 to 71. */
  lemma FreeInTwoGroups(d: nat)
    requires d < 128
    ensures Fits(TwoGroups(), 0) && Fits(TwoGroups(), 1)
    ensures FreeAtFirst(TwoGroups(), 0, d) <==> d >= 41
    ensures FreeAtFirst(TwoGroups(), 1, d) <==> d < 48 || d >= 72
  {
    hide FreeAtFirst, Fits;
    var g := TwoGroups();
    TwoGroupsFit();
    FreeBehind(g, 1, d);
    FreeInFirst(g, d);
  }

  /** So their headers say. */
  lemma HeadersOfTwoGroups(first: Header, second: Header)
    requires Fits(TwoGroups(), 0) && Fits(TwoGroups(), 1)
    requires New(TwoGroups(), 0, first) && New(TwoGroups(), 1, second)
    ensures |first.free| >= 16 && forall d :: 0 <= d < 128 ==> (IsSet(first.free, d) <==> d >= 41)
    ensures |second.free| >= 16 && forall d :: 0 <= d < 128 ==> (IsSet(second.free, d) <==> d < 48 || d >= 72)
    ensures first.ndblk == second.ndblk == 128 && first.magic == second.magic == 0x09_0255
    ensures forall i :: 0 <= i < 64 ==> (IsSet(first.inodes, i) <==> i < 2) && !IsSet(second.inodes, i)
  {
    hide FreeAtFirst, Fits, Agree, ClustersAgree, ClustersCounted, IsSet, UsedInodes;
    var g := TwoGroups();
    forall d | 0 <= d < 128
      ensures IsSet(first.free, d) <==> d >= 41
      ensures IsSet(second.free, d) <==> d < 48 || d >= 72
    {
      FreeInTwoGroups(d);
      BitIs(g, 0, first, d);
      BitIs(g, 1, second, d);
    }
  }

  /** Bit `d` of the map of a new group. */
  lemma BitIs(g: Geom, c: nat, hd: Header, d: nat)
    requires Fits(g, c) && d < g.fpg && g.fpg <= 8 * |hd.free| && Bits(g, hd.free) == AtFirst(g, c)
    ensures IsSet(hd.free, d) <==> FreeAtFirst(g, c, d)
  {
    hide FreeAtFirst, Fits, IsSet;
    ValidIs(g, c);
    var h, i := d / g.frag, d % g.frag;
    InBlock(d, g.fpg, g.frag);
    assert Bits(g, hd.free)[h][i] == FragmentSet(g.frag, hd.free, g.Blocks(), h, i);
    assert AtFirst(g, c)[h][i] == BlockAtFirst(g, c, h)[i] == FreeAtFirst(g, c, h * g.frag + i);
  }

  lemma ValidIs(g: Geom, c: nat)
    requires Fits(g, c)
    ensures g.Valid() && FragSize(g.frag) && g.fpg % g.frag == 0
  {
  }

  lemma InBlock(d: nat, n: nat, m: nat)
    requires FragSize(m) && n % m == 0 && d < n
    ensures d / m < n / m && d % m < m && d / m * m + d % m == d
  {
  }
}
