/** Labels in numbers: units, the order of offsets, and the layout of a disk with six partitions. */
module DiskExamples {
  import opened DiskLabel
  import opened DiskLayout
  import DoubleShare

  // ---------------------------------------------------------------- units

  /** "1k", "1m" and "1g" over sectors of 512 bytes, in either case; a size without a unit is in sectors, and
      with an unknown one in bytes. */
  lemma Units(o: char, offset: int, n: int)
    ensures Sectors(Part(true, 'k', o, 1, offset), 512) == Sectors(Part(true, 'K', o, 1, offset), 512) == 2
    ensures Sectors(Part(true, 'm', o, 1, offset), 512) == Sectors(Part(true, 'M', o, 1, offset), 512) == 2048
    ensures Sectors(Part(true, 'g', o, 1, offset), 512) == Sectors(Part(true, 'G', o, 1, offset), 512) == 2097152
    ensures Sectors(Part(true, '\0', o, n, offset), 512) == n
    ensures Sectors(Part(true, 'b', o, 5120, offset), 512) == 10
  {
  }

  /** Each unit is 1024 of the next smaller one, and a thousand and twenty-four bytes are the smallest. */
  lemma UnitsScale(o: char, offset: int, n: int, secsize: int)
    requires secsize > 0
    ensures Sectors(Part(true, 'g', o, n, offset), secsize) == Sectors(Part(true, 'm', o, 1024 * n, offset), secsize)
    ensures Sectors(Part(true, 'm', o, n, offset), secsize) == Sectors(Part(true, 'k', o, 1024 * n, offset), secsize)
    ensures Sectors(Part(true, 'k', o, n, offset), secsize) == Sectors(Part(true, 'b', o, 1024 * n, offset), secsize)
    ensures Sectors(Part(true, 'b', o, n, offset), secsize) == n / secsize
    ensures Sectors(Part(true, 'G', o, n, offset), secsize) == Sectors(Part(true, 'g', o, n, offset), secsize)
    ensures Sectors(Part(true, 'M', o, n, offset), secsize) == Sectors(Part(true, 'm', o, n, offset), secsize)
    ensures Sectors(Part(true, 'K', o, n, offset), secsize) == Sectors(Part(true, 'k', o, n, offset), secsize)
  {
    hide Sectors;
    OneUnitUp('g', 'm', 1024, o, offset, n, secsize);
    OneUnitUp('m', 'k', 1024, o, offset, n, secsize);
    OneUnitUp('k', 'b', 1024, o, offset, n, secsize);
    OneUnitUp('G', 'g', 1, o, offset, n, secsize);
    OneUnitUp('M', 'm', 1, o, offset, n, secsize);
    OneUnitUp('K', 'k', 1, o, offset, n, secsize);
    assert Sectors(Part(true, 'b', o, n, offset), secsize) == n / secsize by { OneByteEach(o, offset, n, secsize); }
  }

  lemma OneUnitUp(t: char, u: char, m: nat, o: char, offset: int, n: int, secsize: int)
    requires secsize > 0 && t != '\0' && u != '\0' && Multiplier(t) == m * Multiplier(u)
    ensures Sectors(Part(true, t, o, n, offset), secsize) == Sectors(Part(true, u, o, m * n, offset), secsize)
  {
    hide Multiplier;
    var k := Multiplier(u);
    assert n * (m * k) == m * n * k;
  }

  lemma OneByteEach(o: char, offset: int, n: int, secsize: int)
    requires secsize > 0
    ensures Sectors(Part(true, 'b', o, n, offset), secsize) == n / secsize
  {
  }

  /** The size of the unit is computed from the geometry when the label leaves it out. */
  lemma UnitSizes()
    ensures SectorsPerUnit(63, 255, 1024, 0, 0) == 16450560
    ensures SectorsPerUnit(63, 255, 1024, 16000, 0) == 16384000
    ensures SectorsPerUnit(63, 255, 1024, 16000, 5000) == 5000
    ensures SectorsPerUnit(65536, 65536, 7, 0, 0) == 0
  {
  }

  // ---------------------------------------------------------------- the order of offsets

  /** Has a set partition before `n` other than 'c' been given the default offset? */
  lemma {:induction false} SeenDefaultIs(ps: seq<Part>, n: nat)
    requires n <= |ps|
    ensures SeenDefault(ps, n) <==> exists j :: 0 <= j < n && ps[j].isSet && ps[j].offsetType == '*' && j != 2
  {
    if n > 0 {
      SeenDefaultIs(ps, n - 1);
    }
  }

  /** The default offset is where the last set partition before it other than 'c' ends. */
  lemma {:induction false} CurrentIsEnd(ps: seq<Part>, n: nat, j: nat)
    requires j < n <= |ps| && ps[j].isSet && j != 2
    requires forall k :: j < k < n ==> !ps[k].isSet || k == 2
    ensures Current(ps, n) == (Placed(ps)[j].offset + ps[j].size) % 0x1_0000_0000
    decreases n
  {
    if j < n - 1 {
      CurrentIsEnd(ps, n - 1, j);
    }
  }

  lemma {:induction false} CurrentAtFirst(ps: seq<Part>, n: nat)
    requires n <= |ps| && forall k :: 0 <= k < n ==> !ps[k].isSet || k == 2
    ensures Current(ps, n) == 0
  {
    if n > 0 {
      CurrentAtFirst(ps, n - 1);
    }
  }

  /** An offset is out of order when it lies before the end of the partitions that were placed by default. */
  lemma OutOfOrder(ps: seq<Part>, n: nat)
    requires n <= |ps|
    ensures !AllInOrder(ps, n) <==> exists i ::
      && 0 <= i < n && ps[i].isSet && ps[i].offsetType != '*' && i != 2 && ps[i].offset < Current(ps, i)
      && exists j :: 0 <= j < i && ps[j].isSet && ps[j].offsetType == '*' && j != 2
  {
    forall i | 0 <= i < n
      ensures SeenDefault(ps, i) <==> exists j :: 0 <= j < i && ps[j].isSet && ps[j].offsetType == '*' && j != 2
    {
      SeenDefaultIs(ps, i);
    }
    forall i | 0 <= i < n
      ensures InOrder(ps, i) <==>
        !(ps[i].isSet && ps[i].offsetType != '*' && i != 2 && ps[i].offset < Current(ps, i) && SeenDefault(ps, i))
    {
    }
  }

  // ---------------------------------------------------------------- a label with six partitions

  /** "100m *", "64m *", "* *", nothing, "30% *" and "* *". */
  function Given(): seq<Part> {
    [Part(true, 'm', '*', 100, 0), Part(true, 'm', '*', 64, 0), Part(true, '*', '*', 0, 0),
     Part(false, '\0', '\0', 0, 0), Part(true, '%', '*', 30, 0), Part(true, '*', '*', 0, 0)]
  }

  /** Over four million sectors. */
  function Sizes(): seq<Part> {
    [Part(true, 'm', '*', 204800, 0), Part(true, 'm', '*', 131072, 0), Part(true, '*', '*', 4000000, 0),
     Part(false, '\0', '\0', 0, 0), Part(true, '%', '*', 1099238, 0), Part(true, '*', '*', 2564890, 0)]
  }

  function Offsets(): seq<Part> {
    [Part(true, 'm', '*', 204800, 0), Part(true, 'm', '*', 131072, 204800), Part(true, '*', '*', 4000000, 0),
     Part(false, '\0', '\0', 0, 0), Part(true, '%', '*', 1099238, 335872), Part(true, '*', '*', 2564890, 1435110)]
  }

  lemma ExampleTotals(ps: seq<Part>)
    requires ps == Given()
    ensures FixedTotal(ps, 512, 6) == 335872 && PercentTotal(ps, 6) == 30 && Hog(ps, 6) == 5
  {
    assert FixedTotal(ps, 512, 0) == 0 && FixedTotal(ps, 512, 2) == 335872 && FixedTotal(ps, 512, 4) == 335872;
    assert PercentTotal(ps, 0) == 0 && PercentTotal(ps, 2) == 0 && PercentTotal(ps, 4) == 0;
    assert Hog(ps, 0) == -1 && Hog(ps, 2) == -1 && Hog(ps, 4) == -1;
  }

  lemma ExampleShare(ps: seq<Part>)
    requires ps == Given()
    ensures ShareTotal(ps, 3664128, 6) == 1099238 && W32(Share(30, 3664128)) == 1099238
  {
    hide DoubleShare.Share;
    DoubleShare.ShareIs(30, 3664128);
    assert ShareTotal(ps, 3664128, 0) == 0 && ShareTotal(ps, 3664128, 2) == 0 && ShareTotal(ps, 3664128, 4) == 0;
  }

  lemma ExampleSizes()
    ensures Sized(Given(), 512, 4000000) == Sizes()
  {
    hide FixedTotal, PercentTotal, ShareTotal, Hog, Share;
    var ps := Given();
    ExampleTotals(ps);
    ExampleShare(ps);
    assert Free(ps, 512, 4000000) == 3664128 && Shared(ps, 512, 4000000);
    assert Allocated(ps, 512, 4000000) == 1435110;
  }

  lemma ExampleOffsets()
    ensures Placed(Sizes()) == Offsets() && AllInOrder(Sizes(), 6) && Checked(Offsets(), 4000000, 6)
  {
    var s := Sizes();
    assert Current(s, 0) == 0 && Current(s, 1) == 204800;
    assert Current(s, 2) == Current(s, 3) == Current(s, 4) == 335872;
    assert Current(s, 5) == 1435110;
  }

  /** Sizes in megabytes, a percentage and the rest, one behind the other. */
  lemma ExampleLabel()
    ensures Placed(Sized(Given(), 512, 4000000)) == Offsets() && Accepted(Given(), 512, 4000000)
    ensures OneHog(Given()) && FullDiskNotPercent(Given())
  {
    hide Sized, Placed, AllInOrder, Checked, FixedTotal, PercentTotal;
    ExampleSizes();
    ExampleOffsets();
    ExampleTotals(Given());
  }

  // ---------------------------------------------------------------- labels with errors

  predicate Covers(p: Part, x: int) {
    p.offset <= x < p.offset + p.size
  }

  /** Partitions that end within 32 bits collide when they share a sector. */
  lemma Overlap(p: Part, q: Part)
    requires 0 <= p.offset && 0 <= q.offset && 0 < p.size && 0 < q.size
    requires p.offset + p.size < 0x1_0000_0000 && q.offset + q.size < 0x1_0000_0000
    ensures Collide(p, q) <==> exists x :: Covers(p, x) && Covers(q, x)
  {
    if Collide(p, q) {
      var x := if p.offset <= q.offset then q.offset else p.offset;
      assert Covers(p, x) && Covers(q, x);
    }
  }

  /** Partitions that do not collide are disjoint. */
  lemma DisjointIs(p: Part, q: Part)
    requires 0 < p.size && 0 < q.size
    ensures Disjoint(p, q) <==> !exists x :: Covers(p, x) && Covers(q, x)
  {
    if !Disjoint(p, q) {
      var x := if p.offset <= q.offset then q.offset else p.offset;
      assert Covers(p, x) && Covers(q, x);
    }
  }

  /** An empty partition collides with the one in which it lies; one that ends beyond 32 bits collides with what
      begins at or before its own start. */
  lemma OddOverlaps(p: Part, q: Part)
    requires 0 <= p.offset && 0 <= q.offset && 0 < p.size && p.offset + p.size < 0x1_0000_0000
    ensures q.size == 0 && q.offset < 0x1_0000_0000 ==> (Collide(p, q) <==> Covers(p, q.offset))
    ensures q.offset == 10 && q.size == 0xFFFF_FFF8 && p.offset >= 2 ==>
      (Collide(p, q) <==> p.offset <= 10 < p.offset + p.size)
  {
  }

  /** Without space that is free a percentage keeps its number as its size. */
  lemma NothingToShare(ps: seq<Part>)
    requires ps == [Part(true, '\0', '*', 100, 0), Part(true, '%', '*', 30, 0)]
    ensures Sized(ps, 512, 100) == ps && !Accepted(ps, 512, 100)
  {
    assert FixedTotal(ps, 512, 0) == 0 && FixedTotal(ps, 512, 1) == 100 && FixedTotal(ps, 512, 2) == 100;
    assert PercentTotal(ps, 0) == 0 && PercentTotal(ps, 1) == 0 && PercentTotal(ps, 2) == 30;
    assert Hog(ps, 1) == -1 && Hog(ps, 2) == -1;
  }

  /** A partition lies inside the unit when neither its start nor its end, in 32 bits, is beyond it. */
  lemma InsideExactly(p: Part, spu: int)
    requires 0 <= p.offset && 0 <= p.size && p.offset + p.size < 0x1_0000_0000
    ensures Inside(p, spu) <==> p.offset + p.size <= spu
  {
  }

  /** Percentages of more than 100, or of nothing, are errors. */
  lemma PercentagesExactly(ps: seq<Part>, secsize: int, spu: int)
    requires secsize > 0 && 0 <= PercentTotal(ps, |ps|) < 0x1_0000_0000
    requires 0 <= FixedTotal(ps, secsize, |ps|) <= 0x7FFF_FFFF && 0 <= spu <= 0x7FFF_FFFF
    ensures PercentagesFit(ps, secsize, spu) <==>
      PercentTotal(ps, |ps|) == 0 || (PercentTotal(ps, |ps|) <= 100 && FixedTotal(ps, secsize, |ps|) < spu)
  {
  }
}
