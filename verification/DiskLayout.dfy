/** What a label that `checklabel` accepts is worth, and which labels it accepts. */
module DiskLayout {
  import opened DiskLabel
  import DoubleShare

  // ---------------------------------------------------------------- an accepted label is sound

  predicate Disjoint(p: Part, q: Part) {
    p.offset + p.size <= q.offset || q.offset + q.size <= p.offset
  }

  /** Every partition ends within the unit, and no two set ones other than 'c' share a sector. */
  ghost predicate Sound(ps: seq<Part>, spu: int) {
    && (forall i :: 0 <= i < |ps| ==> ps[i].offset + ps[i].size <= spu)
    && (forall i, j :: 0 <= j < i < |ps| && i != FULL_DISK_PART && j != FULL_DISK_PART && ps[i].isSet && ps[j].isSet ==>
         Disjoint(ps[i], ps[j]))
  }

  predicate NoWrap(ps: seq<Part>) {
    forall i :: 0 <= i < |ps| ==> ps[i].offset + ps[i].size < WORD
  }

  /** A partition that ends beyond 32 bits is accepted: "2147483643K" at sector 50 of a unit of 100. */
  lemma WrapIsAccepted(ps: seq<Part>)
    requires ps == [Part(true, 'K', '\0', 0x7FFF_FFFB, 50)]
    ensures Accepted(ps, 512, 100) && !Sound(Placed(Sized(ps, 512, 100)), 100)
  {
    var s := [Part(true, 'K', '\0', 0xFFFF_FFF6, 50)];
    assert Sectors(ps[0], 512) == 0xFFFF_FFF6;
    assert FixedTotal(ps, 512, 1) == FixedTotal(ps, 512, 0) + 0xFFFF_FFF6;
    assert PercentTotal(ps, 1) == PercentTotal(ps, 0) + 0;
    assert Hog(ps, 0) == -1 && Hog(ps, 1) == -1;
    assert Sized(ps, 512, 100) == s;
    assert OffsetOf(s, 0) == 50;
    assert Placed(s) == s;
    assert Inside(s[0], 100);
  }

  // ---------------------------------------------------------------- percentages

  function Percentages(ps: seq<Part>, n: nat): nat
    requires n <= |ps|
  {
    if n == 0 then 0 else Percentages(ps, n - 1) + if IsPercent(ps[n - 1]) then 1 else 0
  }

  lemma {:induction false} PercentNonNegative(ps: seq<Part>, n: nat)
    requires Words(ps) && n <= |ps|
    ensures 0 <= PercentTotal(ps, n)
  {
    if n > 0 {
      PercentNonNegative(ps, n - 1);
    }
  }

  lemma {:induction false} PercentGrows(ps: seq<Part>, m: nat, n: nat)
    requires Words(ps) && m <= n <= |ps|
    ensures PercentTotal(ps, m) <= PercentTotal(ps, n)
  {
    if m < n {
      PercentGrows(ps, m, n - 1);
    }
  }

  /** A share loses less than a sector, or one whole sector, and that only for some percentages. */
  lemma ShareIs(size: int, free: int)
    requires 0 <= size <= 100 && 0 < free < WORD
    ensures var share := W32(Share(size, free));
      && 0 <= share && 100 * share <= size * free && size * free - 100 <= 100 * share
      && (!DoubleShare.FallsShort(size) ==> size * free - 99 <= 100 * share)
  {
    hide W32, DoubleShare.Share;
    var x := size * free;
    TimesUpTo(size, 100, free);
    DoubleShare.ShareIs(size, free);
    if !DoubleShare.FallsShort(size) && x % 100 == 0 {
      DoubleShare.WholeShare(size, free, x / 100);
    }
    Small(Share(size, free));
  }

  lemma TimesUpTo(a: int, b: int, free: int)
    requires 0 <= a <= b && 0 <= free
    ensures 0 <= a * free <= b * free
  {
    assert b * free == a * free + (b - a) * free;
  }

  /** Some of the first `n` percentages cannot lose a whole sector. */
  predicate Sure(ps: seq<Part>, n: nat)
    requires n <= |ps|
  {
    n > 0 && ((IsPercent(ps[n - 1]) && !DoubleShare.FallsShort(ps[n - 1].size)) || Sure(ps, n - 1))
  }

  lemma {:induction false} SharesBetween(ps: seq<Part>, free: int, n: nat)
    requires Words(ps) && 0 < free < WORD && n <= |ps| && PercentTotal(ps, n) <= 100
    ensures 100 * ShareTotal(ps, free, n) <= PercentTotal(ps, n) * free
    ensures PercentTotal(ps, n) * free - 100 * Percentages(ps, n) + (if Sure(ps, n) then 1 else 0)
            <= 100 * ShareTotal(ps, free, n)
    ensures 0 <= ShareTotal(ps, free, n)
  {
    hide W32, Share;
    if n > 0 {
      PercentGrows(ps, n - 1, n);
      PercentNonNegative(ps, n - 1);
      SharesBetween(ps, free, n - 1);
      var p := ps[n - 1];
      if IsPercent(p) {
        ShareIs(p.size, free);
        Distribute(PercentTotal(ps, n - 1), p.size, free);
      }
    }
  }

  /** The sum of two percentages that can lose a whole sector. */
  predicate TwoShort(t: int) {
    || DoubleShare.FallsShort(t - 29) || DoubleShare.FallsShort(t - 35) || DoubleShare.FallsShort(t - 41)
    || DoubleShare.FallsShort(t - 47) || DoubleShare.FallsShort(t - 57) || DoubleShare.FallsShort(t - 58)
    || DoubleShare.FallsShort(t - 69) || DoubleShare.FallsShort(t - 70) || DoubleShare.FallsShort(t - 82)
    || DoubleShare.FallsShort(t - 94)
  }

  /** Percentages that can all lose a whole sector never come to 100. */
  lemma {:induction false} NotAllShort(ps: seq<Part>, n: nat)
    requires n <= |ps| && !Sure(ps, n)
    ensures var c, t := Percentages(ps, n), PercentTotal(ps, n);
      && (c == 0 ==> t == 0) && (c == 1 ==> DoubleShare.FallsShort(t)) && (c == 2 ==> TwoShort(t))
      && (c == 3 ==> t >= 87) && (c > 3 ==> t >= 116) && t != 100
  {
    if n > 0 {
      NotAllShort(ps, n - 1);
    }
  }

  lemma Distribute(a: int, b: int, free: int)
    ensures (a + b) * free == a * free + b * free
  {
  }

  /** Shares never exceed the free space; when they are all of it, fewer sectors are lost than there are
      shares. */
  lemma SharesFit(ps: seq<Part>, free: int)
    requires Words(ps) && 0 < free < WORD && PercentTotal(ps, |ps|) <= 100
    ensures 0 <= ShareTotal(ps, free, |ps|) <= free
    ensures PercentTotal(ps, |ps|) == 100 ==> free - ShareTotal(ps, free, |ps|) < Percentages(ps, |ps|)
  {
    SharesBetween(ps, free, |ps|);
    PercentNonNegative(ps, |ps|);
    hide ShareTotal, PercentTotal, Percentages;
    TimesUpTo(PercentTotal(ps, |ps|), 100, free);
    if PercentTotal(ps, |ps|) == 100 && !Sure(ps, |ps|) {
      NotAllShort(ps, |ps|);
    }
  }

  // ---------------------------------------------------------------- the sum of the sizes

  /** The sectors of the first `n` partitions that are set, without 'c'. */
  function SetTotal(ps: seq<Part>, n: nat): int
    requires n <= |ps|
  {
    if n == 0 then 0
    else SetTotal(ps, n - 1) + (if ps[n - 1].isSet && n - 1 != FULL_DISK_PART then ps[n - 1].size else 0)
  }

  predicate OneHog(ps: seq<Part>) {
    forall i, j :: 0 <= i < |ps| && 0 <= j < |ps| && IsHog(ps[i], i) && IsHog(ps[j], j) ==> i == j
  }

  predicate FullDiskNotPercent(ps: seq<Part>) {
    |ps| > FULL_DISK_PART ==> !IsPercent(ps[FULL_DISK_PART])
  }

  lemma {:induction false} HogIs(ps: seq<Part>, n: nat)
    requires n <= |ps|
    ensures Hog(ps, n) != -1 ==> IsHog(ps[Hog(ps, n)], Hog(ps, n))
    ensures Hog(ps, n) == -1 ==> forall i :: 0 <= i < n ==> !IsHog(ps[i], i)
  {
    if n > 0 {
      HogIs(ps, n - 1);
    }
  }

  /** What the first `n` partitions got, as far as it was not the rest. */
  function GivenTotal(ps: seq<Part>, secsize: int, spu: int, n: nat): int
    requires secsize > 0 && n <= |ps|
  {
    FixedTotal(ps, secsize, n) +
    if Shared(ps, secsize, spu) then ShareTotal(ps, Free(ps, secsize, spu), n) else PercentTotal(ps, n)
  }

  lemma SizedAt(ps: seq<Part>, secsize: int, spu: int, i: nat)
    requires secsize > 0 && i < |ps|
    ensures var s, p := Sized(ps, secsize, spu)[i], ps[i];
      && s.isSet == p.isSet && s.offsetType == p.offsetType && s.offset == p.offset
      && (i == Hog(ps, |ps|) ==> s.size == W32(spu - Allocated(ps, secsize, spu)))
      && (i == FULL_DISK_PART && p.isSet && p.sizeType == '*' ==> s.size == spu)
      && (IsPercent(p) ==>
           s.size == if Shared(ps, secsize, spu) then PercentPart(p, Free(ps, secsize, spu)).size else p.size)
      && (IsFixed(p) ==> s.size == if p.sizeType == '\0' then p.size else W32(Sectors(p, secsize)))
      && (!p.isSet || (IsHog(p, i) && i != Hog(ps, |ps|)) ==> s.size == p.size)
  {
    hide W32, Sectors, Allocated, Shared, Free, Hog, FixedPart, PercentPart;
    HogIs(ps, |ps|);
    var f := FixedPart(ps[i], i, secsize, spu);
    var free := Free(ps, secsize, spu);
    assert FixedParts(ps, secsize, spu)[i] == f;
    assert Shared(ps, secsize, spu) ==> PercentParts(FixedParts(ps, secsize, spu), free)[i] == PercentPart(f, free);
    FixedPartIs(ps[i], i, secsize, spu);
    PercentPartIs(ps[i], free);
    PercentPartIs(f, free);
  }

  lemma FixedPartIs(p: Part, i: nat, secsize: int, spu: int)
    requires secsize > 0
    ensures FixedPart(p, i, secsize, spu) ==
      if p.isSet && p.sizeType == '*' && i == FULL_DISK_PART then p.(size := spu)
      else if IsFixed(p) && p.sizeType != '\0' then p.(size := W32(Sectors(p, secsize)))
      else p
  {
  }

  lemma SizedWords(ps: seq<Part>, secsize: int, spu: int)
    requires secsize > 0 && Words(ps) && 0 <= spu < WORD
    ensures Words(Sized(ps, secsize, spu))
  {
    hide W32, Sectors, Allocated, Shared, Free, Hog, Sized;
    forall i | 0 <= i < |ps| ensures var p := Sized(ps, secsize, spu)[i]; 0 <= p.size < WORD && 0 <= p.offset < WORD {
      SizedAt(ps, secsize, spu, i);
      HogIs(ps, |ps|);
    }
  }

  lemma {:induction false} SetTotalAtLeast(ps: seq<Part>, n: nat, h: nat)
    requires Words(ps) && n <= |ps|
    ensures SetTotal(ps, n) >= 0
    ensures h < n && ps[h].isSet && h != FULL_DISK_PART ==> SetTotal(ps, n) >= ps[h].size
  {
    if n > 0 {
      SetTotalAtLeast(ps, n - 1, h);
    }
  }

  /** With one partition for the rest, the sizes are what was given, and the rest, up to 32 bits. */
  lemma {:induction false} SetIsGiven(ps: seq<Part>, secsize: int, spu: int, n: nat)
    requires secsize > 0 && n <= |ps| && OneHog(ps) && FullDiskNotPercent(ps) && Words(ps)
    ensures var h := Hog(ps, |ps|);
      var rest := if 0 <= h < n then Sized(ps, secsize, spu)[h].size else 0;
      W32(SetTotal(Sized(ps, secsize, spu), n)) == W32(GivenTotal(ps, secsize, spu, n) + rest)
  {
    hide W32, Sectors, Sized, Shared, Free, Hog;
    if n > 0 {
      var i := n - 1;
      SetIsGiven(ps, secsize, spu, i);
      SizedAt(ps, secsize, spu, i);
      HogIs(ps, |ps|);
      var h := Hog(ps, |ps|);
      var s := Sized(ps, secsize, spu);
      var before := GivenTotal(ps, secsize, spu, i) + if 0 <= h < i then s[h].size else 0;
      var step := GivenTotal(ps, secsize, spu, n) - GivenTotal(ps, secsize, spu, i);
      Wrap(SetTotal(s, i), s[i].size);
      Wrap(before, s[i].size);
      WrapRight(before, step);
      SectorsSmall(ps[i], secsize);
      assert ps[i].isSet && ps[i].sizeType == '*' && i != FULL_DISK_PART ==> i == h;
    }
  }

  lemma WrapRight(a: int, b: int)
    ensures W32(a + W32(b)) == W32(a + b)
  {
  }

  lemma SectorsSmall(p: Part, secsize: int)
    requires secsize > 0
    ensures p.sizeType == '\0' ==> Sectors(p, secsize) == p.size
  {
  }

  /** With one partition for the rest and no errors, the sizes add up to the unit, up to 32 bits: exactly
      when the other sizes do not exceed it. */
  lemma SizesFillUnit(ps: seq<Part>, secsize: int, spu: int)
    requires secsize > 0 && 0 <= spu < WORD && Words(ps) && OneHog(ps) && FullDiskNotPercent(ps)
    requires Hog(ps, |ps|) != -1 && PercentagesFit(ps, secsize, spu)
    ensures var s, h := Sized(ps, secsize, spu), Hog(ps, |ps|);
      && W32(SetTotal(s, |s|)) == spu
      && (SetTotal(s, |s|) == spu <==> SetTotal(s, |s|) - s[h].size <= spu)
  {
    hide W32, Sized, Shared, SetTotal, Free;
    var s, h := Sized(ps, secsize, spu), Hog(ps, |ps|);
    SetIsGiven(ps, secsize, spu, |ps|);
    SizedAt(ps, secsize, spu, h);
    var given, all := GivenTotal(ps, secsize, spu, |ps|), Allocated(ps, secsize, spu);
    GivenIsAllocated(ps, secsize, spu);
    var rest := W32(spu - all);
    Wrap(given, rest);
    WrapRight(all, spu - all);
    Small(spu);
    SizedWords(ps, secsize, spu);
    HogIs(ps, |ps|);
    SetTotalAtLeast(s, |s|, h);
    Remainder(SetTotal(s, |s|), rest, spu);
  }

  lemma GivenIsAllocated(ps: seq<Part>, secsize: int, spu: int)
    requires secsize > 0 && PercentagesFit(ps, secsize, spu)
    ensures W32(GivenTotal(ps, secsize, spu, |ps|)) == Allocated(ps, secsize, spu)
  {
    hide W32, FixedTotal, PercentTotal, ShareTotal, Free;
    WrapRight(FixedTotal(ps, secsize, |ps|), PercentTotal(ps, |ps|));
  }

  lemma Remainder(total: int, rest: int, spu: int)
    requires W32(total) == spu && 0 <= rest < WORD && 0 <= spu
    requires total >= rest
    ensures total - rest <= spu <==> total == spu
  {
  }

  // ---------------------------------------------------------------- the default layout

  /** A label whose sizes fit and whose offsets are all left to `checklabel`. */
  ghost predicate DefaultLayout(ps: seq<Part>, secsize: int, spu: int)
    requires secsize > 0
  {
    var sized := Sized(ps, secsize, spu);
    && Words(ps) && 0 < spu < WORD && OneHog(ps) && FullDiskNotPercent(ps)
    && (forall i :: 0 <= i < |ps| && ps[i].isSet && i != FULL_DISK_PART ==>
         ps[i].offsetType == '*' && sized[i].size > 0)
    && FixedTotal(ps, secsize, |ps|) <= spu
    && (PercentTotal(ps, |ps|) == 0 || (PercentTotal(ps, |ps|) <= 100 && 0 < spu - FixedTotal(ps, secsize, |ps|)))
    && (forall i :: 0 <= i < |ps| && !ps[i].isSet ==> ps[i].offset + ps[i].size <= spu)
    && (|ps| > FULL_DISK_PART && ps[FULL_DISK_PART].isSet ==>
         && sized[FULL_DISK_PART].size == spu
         && (ps[FULL_DISK_PART].offsetType == '*' || ps[FULL_DISK_PART].offset == 0))
  }

  /** The free space that percentages are taken of fits a signed word. */
  predicate SmallFree(ps: seq<Part>, secsize: int, spu: int)
    requires secsize > 0
  {
    PercentTotal(ps, |ps|) == 0 || spu - FixedTotal(ps, secsize, |ps|) < 0x8000_0000
  }

  lemma {:induction false} FixedGrows(ps: seq<Part>, secsize: int, m: nat, n: nat)
    requires secsize > 0 && Words(ps) && m <= n <= |ps|
    ensures 0 <= FixedTotal(ps, secsize, m) <= FixedTotal(ps, secsize, n)
    decreases n
  {
    hide Sectors;
    if n > 0 {
      SectorsNonNegative(ps[n - 1], secsize);
      FixedGrows(ps, secsize, if m < n then m else n - 1, n - 1);
    }
  }

  lemma SectorsNonNegative(p: Part, secsize: int)
    requires secsize > 0 && 0 <= p.size
    ensures 0 <= Sectors(p, secsize)
  {
    hide Multiplier;
    assert Multiplier(p.sizeType) >= 0 && p.size * Multiplier(p.sizeType) >= 0;
  }

  /** Fixed sizes that fit are stored as they are. */
  lemma {:induction false} SetIsExact(ps: seq<Part>, secsize: int, spu: int, n: nat)
    requires secsize > 0 && n <= |ps| && DefaultLayout(ps, secsize, spu) && SmallFree(ps, secsize, spu)
    ensures var h := Hog(ps, |ps|);
      var rest := if 0 <= h < n then Sized(ps, secsize, spu)[h].size else 0;
      SetTotal(Sized(ps, secsize, spu), n) == GivenTotal(ps, secsize, spu, n) + rest
  {
    hide W32, Sectors, Sized, Shared, Free, Hog;
    if n > 0 {
      var i := n - 1;
      SetIsExact(ps, secsize, spu, i);
      SizedAt(ps, secsize, spu, i);
      HogIs(ps, |ps|);
      FixedGrows(ps, secsize, n, |ps|);
      FixedGrows(ps, secsize, i, n);
      SectorsSmall(ps[i], secsize);
      var h := Hog(ps, |ps|);
      if IsFixed(ps[i]) && i != FULL_DISK_PART {
        SectorsNonNegative(ps[i], secsize);
        Small(Sectors(ps[i], secsize));
      }
      assert ps[i].isSet && ps[i].sizeType == '*' && i != FULL_DISK_PART ==> i == h;
    }
  }

  /** The sizes fit the unit. */
  lemma SizesFit(ps: seq<Part>, secsize: int, spu: int)
    requires secsize > 0 && DefaultLayout(ps, secsize, spu) && SmallFree(ps, secsize, spu)
    ensures PercentagesFit(ps, secsize, spu) && SetTotal(Sized(ps, secsize, spu), |ps|) <= spu
  {
    hide Sized, SetTotal, Hog;
    var fixed, percent, free := FixedTotal(ps, secsize, |ps|), PercentTotal(ps, |ps|), Free(ps, secsize, spu);
    FixedGrows(ps, secsize, 0, |ps|);
    PercentNonNegative(ps, |ps|);
    SetIsExact(ps, secsize, spu, |ps|);
    if percent != 0 {
      assert free == spu - fixed;
      SharesFit(ps, free);
    }
    var h := Hog(ps, |ps|);
    if h != -1 {
      SizedAt(ps, secsize, spu, h);
    }
  }

  lemma {:induction false} SetTotalGrows(ps: seq<Part>, m: nat, n: nat)
    requires Words(ps) && m <= n <= |ps|
    ensures 0 <= SetTotal(ps, m) <= SetTotal(ps, n)
    decreases n
  {
    if n > 0 {
      SetTotalGrows(ps, if m < n then m else n - 1, n - 1);
    }
  }

  /** By default every partition starts where the ones before it end. */
  lemma {:induction false} CurrentIs(ps: seq<Part>, n: nat)
    requires n <= |ps| && Words(ps) && SetTotal(ps, |ps|) < WORD
    requires forall i :: 0 <= i < |ps| && ps[i].isSet && i != FULL_DISK_PART ==> ps[i].offsetType == '*'
    ensures Current(ps, n) == SetTotal(ps, n)
  {
    hide W32;
    if n > 0 {
      CurrentIs(ps, n - 1);
      SetTotalGrows(ps, n, |ps|);
      SetTotalGrows(ps, n - 1, n);
      Small(SetTotal(ps, n));
    }
  }

  /** No error is found unless there are percentages of a free space of 2^31 sectors or more; then each
      offset is the sum of the earlier sizes. */
  lemma DefaultLayoutIsAccepted(ps: seq<Part>, secsize: int, spu: int)
    requires secsize > 0 && DefaultLayout(ps, secsize, spu)
    ensures Accepted(ps, secsize, spu) <==> SmallFree(ps, secsize, spu)
    ensures Accepted(ps, secsize, spu) ==>
      var sized := Sized(ps, secsize, spu);
      forall i :: 0 <= i < |ps| && ps[i].isSet && i != FULL_DISK_PART ==> Placed(sized)[i].offset == SetTotal(sized, i)
  {
    hide Sized, SetTotal, Current;
    if SmallFree(ps, secsize, spu) {
      SmallFreeIsAccepted(ps, secsize, spu);
    } else {
      LargeFreeIsRejected(ps, secsize, spu);
    }
  }

  lemma LargeFreeIsRejected(ps: seq<Part>, secsize: int, spu: int)
    requires secsize > 0 && DefaultLayout(ps, secsize, spu) && !SmallFree(ps, secsize, spu)
    ensures !PercentagesFit(ps, secsize, spu)
  {
    hide Sized, SetTotal, Hog, FixedTotal, PercentTotal;
    FixedGrows(ps, secsize, 0, |ps|);
    PercentNonNegative(ps, |ps|);
    Small(FixedTotal(ps, secsize, |ps|));
    Small(spu - FixedTotal(ps, secsize, |ps|));
  }

  /** One partition of all of 2^31 sectors is such a layout, and rejected. */
  lemma LargeUnitIsRejected(ps: seq<Part>)
    requires ps == [Part(true, '%', '*', 100, 0)]
    ensures DefaultLayout(ps, 512, 0x8000_0000) && !Accepted(ps, 512, 0x8000_0000)
  {
    hide Share;
    assert FixedTotal(ps, 512, 1) == FixedTotal(ps, 512, 0) == 0;
    assert PercentTotal(ps, 1) == PercentTotal(ps, 0) + 100;
    assert Hog(ps, 0) == -1 && Hog(ps, 1) == -1;
    assert Sized(ps, 512, 0x8000_0000) == ps;
  }

  lemma SmallFreeIsAccepted(ps: seq<Part>, secsize: int, spu: int)
    requires secsize > 0 && DefaultLayout(ps, secsize, spu) && SmallFree(ps, secsize, spu)
    ensures Accepted(ps, secsize, spu)
    ensures var sized := Sized(ps, secsize, spu);
      forall i :: 0 <= i < |ps| && ps[i].isSet && i != FULL_DISK_PART ==> Placed(sized)[i].offset == SetTotal(sized, i)
  {
    hide Sized, SetTotal, Current, PercentagesFit;
    var s := Sized(ps, secsize, spu);
    SizesFit(ps, secsize, spu);
    SizedWords(ps, secsize, spu);
    forall i | 0 <= i < |ps|
      ensures s[i].isSet == ps[i].isSet && s[i].offsetType == ps[i].offsetType && s[i].offset == ps[i].offset
      ensures !ps[i].isSet ==> s[i].size == ps[i].size
    {
      SizedAt(ps, secsize, spu, i);
    }
    forall i | 0 <= i < |ps| ensures InOrder(s, i) {
    }
    Places(s, spu);
  }

  /** Sizes that are positive and fit the unit, to be placed one behind the other. */
  ghost predicate Packable(s: seq<Part>, spu: int) {
    && Words(s) && 0 < spu < WORD && SetTotal(s, |s|) <= spu
    && (forall i :: 0 <= i < |s| && s[i].isSet && i != FULL_DISK_PART ==> s[i].offsetType == '*' && s[i].size > 0)
    && (forall i :: 0 <= i < |s| && !s[i].isSet ==> s[i].offset + s[i].size <= spu)
    && (|s| > FULL_DISK_PART && s[FULL_DISK_PART].isSet ==>
         s[FULL_DISK_PART].size == spu && (s[FULL_DISK_PART].offsetType == '*' || s[FULL_DISK_PART].offset == 0))
  }

  lemma PlaceAt(s: seq<Part>, spu: int, i: nat)
    requires Packable(s, spu) && i < |s|
    ensures var p := Placed(s)[i];
      && p.isSet == s[i].isSet && p.size == s[i].size && 0 <= p.offset && p.offset + p.size <= spu
      && (s[i].isSet && i != FULL_DISK_PART ==>
           p.size > 0 && p.offset == SetTotal(s, i) && p.offset + p.size == SetTotal(s, i + 1) <= spu)
  {
    hide W32, Current, SetTotal;
    CurrentIs(s, i);
    SetTotalStep(s, i);
    SetTotalGrows(s, i + 1, |s|);
    SetTotalGrows(s, i, |s|);
  }

  lemma PlacedApart(s: seq<Part>, spu: int, i: nat, j: nat)
    requires Packable(s, spu) && j < i < |s|
    ensures Apart(Placed(s), i, j)
  {
    hide W32, SetTotal, Placed, Packable;
    PlaceAt(s, spu, i);
    PlaceAt(s, spu, j);
    var p := Placed(s);
    assert 0 < spu < WORD && Words(s) by {
      PackableWords(s, spu);
    }
    Small(p[i].offset + p[i].size);
    Small(p[j].offset + p[j].size);
    SetTotalGrows(s, j + 1, i);
  }

  lemma PackableWords(s: seq<Part>, spu: int)
    requires Packable(s, spu)
    ensures 0 < spu < WORD && Words(s)
  {
  }

  lemma Places(s: seq<Part>, spu: int)
    requires Packable(s, spu)
    ensures Checked(Placed(s), spu, |s|)
    ensures forall i :: 0 <= i < |s| && s[i].isSet && i != FULL_DISK_PART ==> Placed(s)[i].offset == SetTotal(s, i)
  {
    hide W32, SetTotal, Placed, Apart;
    forall i | 0 <= i < |s|
      ensures Inside(Placed(s)[i], spu) && ApartBefore(Placed(s), i)
      ensures s[i].isSet && i != FULL_DISK_PART ==> Placed(s)[i].offset == SetTotal(s, i)
    {
      PlaceAt(s, spu, i);
      Small(Placed(s)[i].offset + Placed(s)[i].size);
      forall j | 0 <= j < i ensures Apart(Placed(s), i, j) {
        PlacedApart(s, spu, i, j);
      }
    }
  }

  lemma SetTotalStep(ps: seq<Part>, i: nat)
    requires i < |ps|
    ensures SetTotal(ps, i + 1) == SetTotal(ps, i) + (if ps[i].isSet && i != FULL_DISK_PART then ps[i].size else 0)
  {
  }

  // ---------------------------------------------------------------- every accepted label

  lemma PlacedWords(ps: seq<Part>)
    requires Words(ps)
    ensures Words(Placed(ps))
  {
    forall i | 0 <= i < |ps| ensures 0 <= OffsetOf(ps, i) < WORD {
      CurrentWord(ps, i);
    }
  }

  lemma {:induction false} CurrentWord(ps: seq<Part>, n: nat)
    requires n <= |ps|
    ensures 0 <= Current(ps, n) < WORD
  {
    if n > 0 {
      CurrentWord(ps, n - 1);
    }
  }

  // The label as it is given, with sums that are not cut to 32 bits.

  /** What is not left to the partition that takes the rest. */
  function Claimed(ps: seq<Part>, secsize: int, spu: int): int
    requires secsize > 0
  {
    FixedTotal(ps, secsize, |ps|) +
    if Shared(ps, secsize, spu) then ShareTotal(ps, Free(ps, secsize, spu), |ps|) else 0
  }

  /** The size that partition `i` gets. */
  function GivenSize(ps: seq<Part>, secsize: int, spu: int, i: nat): int
    requires secsize > 0 && i < |ps|
  {
    var p := ps[i];
    if i == Hog(ps, |ps|) then W32(spu - Claimed(ps, secsize, spu))
    else if i == FULL_DISK_PART && p.isSet && p.sizeType == '*' then spu
    else if IsPercent(p) && Shared(ps, secsize, spu) then W32(Share(p.size, Free(ps, secsize, spu)))
    else if IsFixed(p) && p.sizeType != '\0' then W32(Sectors(p, secsize))
    else p.size
  }

  /** Where it starts: at its offset, or where the last set partition before it ends. */
  function GivenStart(ps: seq<Part>, secsize: int, spu: int, i: nat): int
    requires secsize > 0 && i < |ps|
    decreases i, 1
  {
    if !ps[i].isSet || ps[i].offsetType != '*' then ps[i].offset
    else if i == FULL_DISK_PART then 0
    else GivenCurrent(ps, secsize, spu, i)
  }

  function GivenEnd(ps: seq<Part>, secsize: int, spu: int, i: nat): int
    requires secsize > 0 && i < |ps|
    decreases i, 2
  {
    GivenStart(ps, secsize, spu, i) + GivenSize(ps, secsize, spu, i)
  }

  function GivenCurrent(ps: seq<Part>, secsize: int, spu: int, n: nat): int
    requires secsize > 0 && n <= |ps|
    decreases n, 0
  {
    if n == 0 then 0
    else if ps[n - 1].isSet && n - 1 != FULL_DISK_PART then GivenEnd(ps, secsize, spu, n - 1)
    else GivenCurrent(ps, secsize, spu, n - 1)
  }

  lemma SizeIsGiven(ps: seq<Part>, secsize: int, spu: int, i: nat)
    requires secsize > 0 && i < |ps|
    ensures var s := Sized(ps, secsize, spu)[i];
      && s.isSet == ps[i].isSet && s.offsetType == ps[i].offsetType && s.offset == ps[i].offset
      && s.size == GivenSize(ps, secsize, spu, i)
  {
    hide W32, Sectors, FixedTotal, ShareTotal, PercentTotal, Free, Hog, Sized;
    SizedAt(ps, secsize, spu, i);
    HogIs(ps, |ps|);
    RestIs(spu, Claimed(ps, secsize, spu));
    PercentPartIs(ps[i], Free(ps, secsize, spu));
  }

  lemma RestIs(spu: int, claimed: int)
    ensures W32(spu - W32(claimed)) == W32(spu - claimed)
  {
  }

  /** No partition before `n` ends beyond 32 bits. */
  ghost predicate Fits(ps: seq<Part>, secsize: int, spu: int, n: nat)
    requires secsize > 0 && n <= |ps|
  {
    forall i :: 0 <= i < n ==> GivenEnd(ps, secsize, spu, i) < WORD
  }

  ghost predicate FitsPlaced(ps: seq<Part>, n: nat)
    requires n <= |ps|
  {
    forall i :: 0 <= i < n ==> OffsetOf(ps, i) + ps[i].size < WORD
  }

  /** As long as nothing has ended beyond 32 bits, the 32-bit sums are the sums. */
  lemma {:induction false} CurrentIsGiven(ps: seq<Part>, secsize: int, spu: int, n: nat)
    requires secsize > 0 && Words(ps) && 0 <= spu < WORD && n <= |ps|
    requires Fits(ps, secsize, spu, n) || FitsPlaced(Sized(ps, secsize, spu), n)
    ensures Current(Sized(ps, secsize, spu), n) == GivenCurrent(ps, secsize, spu, n)
    ensures n < |ps| ==> OffsetOf(Sized(ps, secsize, spu), n) == GivenStart(ps, secsize, spu, n)
  {
    hide W32, GivenSize, Sized;
    if n < |ps| {
      SizeIsGiven(ps, secsize, spu, n);
    }
    if n > 0 {
      CurrentIsGiven(ps, secsize, spu, n - 1);
      SizeIsGiven(ps, secsize, spu, n - 1);
      SizedWords(ps, secsize, spu);
      PlacedWords(Sized(ps, secsize, spu));
      var s := Sized(ps, secsize, spu);
      assert Placed(s)[n - 1].offset == OffsetOf(s, n - 1);
      assert Fits(ps, secsize, spu, n) ==> GivenEnd(ps, secsize, spu, n - 1) < WORD;
      Small(OffsetOf(s, n - 1) + s[n - 1].size);
    }
  }

  /** Without an end beyond 32 bits in the sums there is none in the final label, and the other way round. */
  lemma {:induction false} FitsEither(ps: seq<Part>, secsize: int, spu: int, n: nat)
    requires secsize > 0 && Words(ps) && 0 <= spu < WORD && n <= |ps|
    ensures Fits(ps, secsize, spu, n) <==> FitsPlaced(Sized(ps, secsize, spu), n)
  {
    hide W32, GivenSize, GivenStart, GivenCurrent, Sized, Current, OffsetOf;
    if n > 0 {
      FitsEither(ps, secsize, spu, n - 1);
      SizeIsGiven(ps, secsize, spu, n - 1);
      if Fits(ps, secsize, spu, n - 1) {
        CurrentIsGiven(ps, secsize, spu, n - 1);
        var s := Sized(ps, secsize, spu);
        assert GivenEnd(ps, secsize, spu, n - 1) == OffsetOf(s, n - 1) + s[n - 1].size;
      } else {
        FitsLess(ps, secsize, spu, n);
      }
    }
  }

  lemma FitsLess(ps: seq<Part>, secsize: int, spu: int, n: nat)
    requires secsize > 0 && 0 < n <= |ps|
    ensures Fits(ps, secsize, spu, n) ==> Fits(ps, secsize, spu, n - 1)
    ensures FitsPlaced(Sized(ps, secsize, spu), n) ==> FitsPlaced(Sized(ps, secsize, spu), n - 1)
  {
    hide GivenEnd, Sized, OffsetOf;
  }

  lemma PlacedFits(s: seq<Part>)
    ensures NoWrap(Placed(s)) <==> FitsPlaced(s, |s|)
  {
    hide OffsetOf;
    forall i | 0 <= i < |s| ensures Placed(s)[i].offset == OffsetOf(s, i) && Placed(s)[i].size == s[i].size {
    }
    if FitsPlaced(s, |s|) {
      assert NoWrap(Placed(s));
    }
    if NoWrap(Placed(s)) {
      forall i | 0 <= i < |s| ensures OffsetOf(s, i) + s[i].size < WORD {
        assert Placed(s)[i].offset + Placed(s)[i].size < WORD;
      }
    }
  }

  /** A label in which no error is found is sound exactly when, added up without a limit, no partition of it
      ends at 2^32 sectors or beyond. */
  lemma AcceptedIsSound(ps: seq<Part>, secsize: int, spu: int)
    requires secsize > 0 && Words(ps) && 0 <= spu < WORD && Accepted(ps, secsize, spu)
    ensures Sound(Placed(Sized(ps, secsize, spu)), spu) <==> Fits(ps, secsize, spu, |ps|)
  {
    hide Sized, Placed, AllInOrder, PercentagesFit, Fits, Sound, NoWrap, Checked;
    SizedWords(ps, secsize, spu);
    PlacedWords(Sized(ps, secsize, spu));
    CheckedIsSound(Placed(Sized(ps, secsize, spu)), spu);
    PlacedFits(Sized(ps, secsize, spu));
    FitsEither(ps, secsize, spu, |ps|);
  }

  // The common case: no offset is given and one partition takes the rest.

  /** The sectors of the first `n` partitions that are set, without 'c' and without the one for the rest. */
  function OthersTotal(ps: seq<Part>, secsize: int, spu: int, n: nat): int
    requires secsize > 0 && n <= |ps|
  {
    if n == 0 then 0
    else
      var i := n - 1;
      OthersTotal(ps, secsize, spu, i) +
      (if ps[i].isSet && i != FULL_DISK_PART && i != Hog(ps, |ps|) then GivenSize(ps, secsize, spu, i) else 0)
  }

  lemma {:induction false} OthersAreSet(ps: seq<Part>, secsize: int, spu: int, n: nat)
    requires secsize > 0 && n <= |ps|
    ensures var s, h := Sized(ps, secsize, spu), Hog(ps, |ps|);
      SetTotal(s, n) == OthersTotal(ps, secsize, spu, n) + if 0 <= h < n then s[h].size else 0
  {
    hide W32, GivenSize, Sized, Hog;
    if n > 0 {
      OthersAreSet(ps, secsize, spu, n - 1);
      SizeIsGiven(ps, secsize, spu, n - 1);
      HogIs(ps, |ps|);
    }
  }

  ghost predicate OffsetsLeft(ps: seq<Part>) {
    forall i :: 0 <= i < |ps| && ps[i].isSet && i != FULL_DISK_PART ==> ps[i].offsetType == '*'
  }

  /** Partitions then follow each other. */
  lemma {:induction false} GivenCurrentIs(ps: seq<Part>, secsize: int, spu: int, n: nat)
    requires secsize > 0 && n <= |ps| && OffsetsLeft(ps)
    ensures GivenCurrent(ps, secsize, spu, n) == SetTotal(Sized(ps, secsize, spu), n)
  {
    hide W32, GivenSize, Sized;
    if n > 0 {
      GivenCurrentIs(ps, secsize, spu, n - 1);
      SizeIsGiven(ps, secsize, spu, n - 1);
      CurrentStep(ps, secsize, spu, n - 1);
    }
  }

  lemma CurrentStep(ps: seq<Part>, secsize: int, spu: int, i: nat)
    requires secsize > 0 && i < |ps| && OffsetsLeft(ps)
    ensures var current := GivenCurrent(ps, secsize, spu, i);
      if ps[i].isSet && i != FULL_DISK_PART then
        && GivenEnd(ps, secsize, spu, i) == current + GivenSize(ps, secsize, spu, i)
        && GivenCurrent(ps, secsize, spu, i + 1) == GivenEnd(ps, secsize, spu, i)
      else GivenCurrent(ps, secsize, spu, i + 1) == current
  {
    hide GivenSize;
    assert ps[i].isSet && i != FULL_DISK_PART ==> ps[i].offsetType == '*';
  }

  /** Unset partitions and 'c' do not end beyond 32 bits. */
  ghost predicate AsideFit(ps: seq<Part>, secsize: int, spu: int)
    requires secsize > 0
  {
    forall i :: 0 <= i < |ps| && (!ps[i].isSet || i == FULL_DISK_PART) ==> GivenEnd(ps, secsize, spu, i) < WORD
  }

  lemma {:induction false} FitsTotal(ps: seq<Part>, secsize: int, spu: int, n: nat)
    requires secsize > 0 && Words(ps) && 0 <= spu < WORD && n <= |ps| && OffsetsLeft(ps) && AsideFit(ps, secsize, spu)
    ensures Fits(ps, secsize, spu, n) <==> SetTotal(Sized(ps, secsize, spu), n) < WORD
  {
    hide W32, GivenSize, Sized, GivenEnd, GivenCurrent;
    if n > 0 {
      FitsTotal(ps, secsize, spu, n - 1);
      FitsLess(ps, secsize, spu, n);
      CurrentStep(ps, secsize, spu, n - 1);
      SetTotalStep(Sized(ps, secsize, spu), n - 1);
      GivenCurrentIs(ps, secsize, spu, n - 1);
      SizeIsGiven(ps, secsize, spu, n - 1);
      SizedWords(ps, secsize, spu);
    }
  }

  /** An accepted label is then sound exactly when the other sizes do not exceed the unit. */
  lemma RestDecides(ps: seq<Part>, secsize: int, spu: int)
    requires secsize > 0 && Words(ps) && 0 <= spu < WORD && Accepted(ps, secsize, spu)
    requires OneHog(ps) && FullDiskNotPercent(ps) && Hog(ps, |ps|) != -1
    requires OffsetsLeft(ps) && AsideFit(ps, secsize, spu)
    ensures Sound(Placed(Sized(ps, secsize, spu)), spu) <==> OthersTotal(ps, secsize, spu, |ps|) <= spu
  {
    hide Sized, Placed, Fits, Sound, AsideFit, Checked, AllInOrder, PercentagesFit, SetTotal, OthersTotal, W32;
    AcceptedIsSound(ps, secsize, spu);
    FitsTotal(ps, secsize, spu, |ps|);
    OthersAreSet(ps, secsize, spu, |ps|);
    SizesFillUnit(ps, secsize, spu);
    SizedWords(ps, secsize, spu);
    SetTotalAtLeast(Sized(ps, secsize, spu), |ps|, 0);
    if SetTotal(Sized(ps, secsize, spu), |ps|) < WORD {
      Small(SetTotal(Sized(ps, secsize, spu), |ps|));
    }
  }

  lemma CheckedIsSound(ps: seq<Part>, spu: int)
    requires Words(ps) && 0 <= spu < WORD && Checked(ps, spu, |ps|)
    ensures Sound(ps, spu) <==> NoWrap(ps)
  {
    if NoWrap(ps) {
      forall i | 0 <= i < |ps| ensures ps[i].offset + ps[i].size <= spu {
        assert Inside(ps[i], spu);
      }
      forall i, j | 0 <= j < i < |ps| && i != FULL_DISK_PART && j != FULL_DISK_PART && ps[i].isSet && ps[j].isSet
        ensures Disjoint(ps[i], ps[j])
      {
        assert ApartBefore(ps, i) && Apart(ps, i, j);
      }
    }
  }
}
