/** `checklabel`: sizes and offsets for the partitions of a label, in 32-bit arithmetic. */
module DiskLabel {
  import DoubleShare

  const WORD := 0x1_0000_0000
  const FULL_DISK_PART := 2

  /** The low 32 bits. */
  function W32(x: int): (r: int)
    ensures 0 <= r < WORD && (0 <= x < WORD ==> r == x)
  {
    x % WORD
  }

  function Signed(x: int): int {
    if x >= 0x8000_0000 then x - WORD else x
  }

  /** A partition, whether it is set, and how its size and its offset were given. */
  datatype Part = Part(isSet: bool, sizeType: char, offsetType: char, size: int, offset: int)

  predicate Words(ps: seq<Part>) {
    forall i :: 0 <= i < |ps| ==> 0 <= ps[i].size < WORD && 0 <= ps[i].offset < WORD
  }

  // ---------------------------------------------------------------- fixed sizes

  function Multiplier(t: char): nat {
    if t == 'k' || t == 'K' then 1024
    else if t == 'm' || t == 'M' then 1024 * 1024
    else if t == 'g' || t == 'G' then 1024 * 1024 * 1024
    else 1
  }

  /** The sectors that a fixed size stands for; only a size without a type is in sectors. */
  function Sectors(p: Part, secsize: int): int
    requires secsize > 0
  {
    if p.sizeType == '\0' then p.size else p.size * Multiplier(p.sizeType) / secsize
  }

  predicate IsFixed(p: Part) {
    p.isSet && p.sizeType != '*' && p.sizeType != '%'
  }

  predicate IsPercent(p: Part) {
    p.isSet && p.sizeType == '%'
  }

  predicate IsHog(p: Part, i: nat) {
    p.isSet && p.sizeType == '*' && i != FULL_DISK_PART
  }

  /** Partition `i` when the fixed sizes have been converted. */
  function FixedPart(p: Part, i: nat, secsize: int, spu: int): Part
    requires secsize > 0
  {
    if p.isSet && p.sizeType == '*' && i == FULL_DISK_PART then p.(size := spu)
    else if IsFixed(p) && p.sizeType != '\0' then p.(size := W32(Sectors(p, secsize)))
    else p
  }

  function FixedParts(ps: seq<Part>, secsize: int, spu: int): (r: seq<Part>)
    requires secsize > 0
    ensures |r| == |ps|
  {
    seq(|ps|, i requires 0 <= i < |ps| => FixedPart(ps[i], i, secsize, spu))
  }

  /** The sectors of the first `n` partitions that are fixed; 'c' does not count. */
  function FixedTotal(ps: seq<Part>, secsize: int, n: nat): int
    requires secsize > 0 && n <= |ps|
  {
    if n == 0 then 0 else FixedTotal(ps, secsize, n - 1) + FixedAmount(ps[n - 1], n - 1, secsize)
  }

  function FixedAmount(p: Part, i: nat, secsize: int): int
    requires secsize > 0
  {
    if IsFixed(p) && i != FULL_DISK_PART then Sectors(p, secsize) else 0
  }

  function PercentTotal(ps: seq<Part>, n: nat): int
    requires n <= |ps|
  {
    if n == 0 then 0 else PercentTotal(ps, n - 1) + PercentAmount(ps[n - 1])
  }

  function PercentAmount(p: Part): int {
    if IsPercent(p) then p.size else 0
  }

  /** The first partition that takes the rest, -1 for none. */
  function Hog(ps: seq<Part>, n: nat): (h: int)
    requires n <= |ps|
    ensures -1 <= h < n
  {
    if n == 0 then -1
    else if Hog(ps, n - 1) == -1 && IsHog(ps[n - 1], n - 1) then n - 1
    else Hog(ps, n - 1)
  }

  // ---------------------------------------------------------------- percentages and the rest

  /** A share, in double precision; nothing is shared out of nothing. */
  function Share(size: int, free: int): int {
    if size < 0 || free < 0 then 0 else DoubleShare.Share(size, free)
  }

  function PercentPart(p: Part, free: int): Part {
    if IsPercent(p) then p.(size := W32(Share(p.size, free))) else p
  }

  function PercentParts(ps: seq<Part>, free: int): (r: seq<Part>)
    ensures |r| == |ps|
  {
    seq(|ps|, i requires 0 <= i < |ps| => PercentPart(ps[i], free))
  }

  /** The sectors that the percentages among the first `n` partitions got. */
  function ShareTotal(ps: seq<Part>, free: int, n: nat): int
    requires n <= |ps|
  {
    if n == 0 then 0
    else ShareTotal(ps, free, n - 1) + if IsPercent(ps[n - 1]) then PercentPart(ps[n - 1], free).size else 0
  }

  function Free(ps: seq<Part>, secsize: int, spu: int): int
    requires secsize > 0
  {
    Signed(W32(spu - W32(FixedTotal(ps, secsize, |ps|))))
  }

  /** Are shares handed out? */
  predicate Shared(ps: seq<Part>, secsize: int, spu: int)
    requires secsize > 0
  {
    W32(PercentTotal(ps, |ps|)) != 0 && Free(ps, secsize, spu) > 0
  }

  /** The running total before the rest is given away. */
  function Allocated(ps: seq<Part>, secsize: int, spu: int): int
    requires secsize > 0
  {
    var fixed := FixedTotal(ps, secsize, |ps|);
    W32(if Shared(ps, secsize, spu) then fixed + ShareTotal(ps, Free(ps, secsize, spu), |ps|) else fixed)
  }

  /** The partitions with their sizes. */
  function Sized(ps: seq<Part>, secsize: int, spu: int): (r: seq<Part>)
    requires secsize > 0
    ensures |r| == |ps|
  {
    var a := FixedParts(ps, secsize, spu);
    var b := if Shared(ps, secsize, spu) then PercentParts(a, Free(ps, secsize, spu)) else a;
    var h := Hog(ps, |ps|);
    if h == -1 then b else b[h := b[h].(size := W32(spu - Allocated(ps, secsize, spu)))]
  }

  // ---------------------------------------------------------------- offsets

  /** Where the next partition goes by default, when the first `n` have their offsets. */
  function Current(ps: seq<Part>, n: nat): int
    requires n <= |ps|
    decreases n, 0
  {
    if n == 0 then 0
    else if ps[n - 1].isSet && n - 1 != FULL_DISK_PART then W32(OffsetOf(ps, n - 1) + ps[n - 1].size)
    else Current(ps, n - 1)
  }

  function OffsetOf(ps: seq<Part>, i: nat): int
    requires i < |ps|
    decreases i, 1
  {
    if !ps[i].isSet || ps[i].offsetType != '*' then ps[i].offset
    else if i == FULL_DISK_PART then 0
    else Current(ps, i)
  }

  predicate SeenDefault(ps: seq<Part>, n: nat)
    requires n <= |ps|
  {
    n > 0 && ((ps[n - 1].isSet && ps[n - 1].offsetType == '*' && n - 1 != FULL_DISK_PART) || SeenDefault(ps, n - 1))
  }

  predicate InOrder(ps: seq<Part>, i: nat)
    requires i < |ps|
  {
    !(ps[i].isSet && ps[i].offsetType != '*' && ps[i].offset < Current(ps, i) && SeenDefault(ps, i) &&
      i != FULL_DISK_PART)
  }

  ghost predicate AllInOrder(ps: seq<Part>, n: nat)
    requires n <= |ps|
  {
    forall i :: 0 <= i < n ==> InOrder(ps, i)
  }

  function Placed(ps: seq<Part>): (r: seq<Part>)
    ensures |r| == |ps|
  {
    seq(|ps|, i requires 0 <= i < |ps| => ps[i].(offset := OffsetOf(ps, i)))
  }

  // ---------------------------------------------------------------- the checks

  predicate Inside(p: Part, spu: int) {
    p.offset <= spu && W32(p.offset + p.size) <= spu
  }

  /** The test for an overlap, in 32 bits. */
  predicate Collide(p: Part, q: Part) {
    q.offset < W32(p.offset + p.size) && (W32(q.offset + q.size) > p.offset || q.offset >= p.offset)
  }

  predicate Apart(ps: seq<Part>, i: nat, j: nat)
    requires i < |ps| && j < |ps|
  {
    !(j != FULL_DISK_PART && i != FULL_DISK_PART && ps[i].isSet && ps[j].isSet && Collide(ps[i], ps[j]))
  }

  ghost predicate ApartBefore(ps: seq<Part>, i: nat)
    requires i < |ps|
  {
    forall j :: 0 <= j < i ==> Apart(ps, i, j)
  }

  ghost predicate Checked(ps: seq<Part>, spu: int, n: nat)
    requires n <= |ps|
  {
    forall i :: 0 <= i < n ==> Inside(ps[i], spu) && ApartBefore(ps, i)
  }

  class Label {
    var secsize: int
    var nsectors: int
    var ntracks: int
    var ncylinders: int
    var secpercyl: int
    var secperunit: int
    var bbsize: int
    var sbsize: int
    const parts: array<Part>

    constructor (parts: array<Part>)
      ensures this.parts == parts
    {
      this.parts := parts;
    }

    /** The first loop: convert the fixed sizes, add them up, and find what the rest goes to. */
    method FixSizes() returns (total: int, percent: int, hog: int)
      requires secsize > 0 && Words(parts[..])
      modifies parts
      ensures parts[..] == FixedParts(old(parts[..]), secsize, secperunit)
      ensures var ps := old(parts[..]);
        && total == W32(FixedTotal(ps, secsize, |ps|)) && percent == W32(PercentTotal(ps, |ps|)) && hog == Hog(ps, |ps|)
    {
      hide W32, Sectors, Multiplier;
      ghost var ps := parts[..];
      total, percent, hog := 0, 0, -1;
      var i := 0;
      while i < parts.Length
        invariant i <= parts.Length && total == W32(FixedTotal(ps, secsize, i))
        invariant percent == W32(PercentTotal(ps, i)) && hog == Hog(ps, i)
        invariant forall k :: 0 <= k < i ==> parts[k] == FixedPart(ps[k], k, secsize, secperunit)
        invariant forall k :: i <= k < parts.Length ==> parts[k] == ps[k]
      {
        Wrap(FixedTotal(ps, secsize, i), FixedAmount(ps[i], i, secsize));
        Wrap(PercentTotal(ps, i), PercentAmount(ps[i]));
        var p := parts[i];
        if p.isSet {
          if p.sizeType == '*' {
            if i == FULL_DISK_PART {
              parts[i] := p.(size := secperunit);
            } else if hog == -1 {
              hog := i;
            }
          } else if p.sizeType == '%' {
            percent := W32(percent + p.size);
          } else {
            var size := p.size * Multiplier(p.sizeType);
            SectorsIs(p, secsize);
            if p.sizeType != '\0' {
              size := size / secsize;
              parts[i] := p.(size := W32(size));
            }
            if i != FULL_DISK_PART {
              total := W32(total + size);
            }
          }
        }
        i := i + 1;
      }
    }

    /** Hand out shares of the free space. */
    method GiveShares(free: int, total0: int) returns (total: int)
      requires free > 0 && 0 <= total0 < WORD
      modifies parts
      ensures parts[..] == PercentParts(old(parts[..]), free)
      ensures total == W32(total0 + ShareTotal(old(parts[..]), free, parts.Length))
    {
      hide W32, PercentPart;
      ghost var ps := parts[..];
      total := total0;
      Small(total0);
      var i := 0;
      while i < parts.Length
        invariant i <= parts.Length && total == W32(total0 + ShareTotal(ps, free, i))
        invariant forall k :: 0 <= k < i ==> parts[k] == PercentPart(ps[k], free)
        invariant forall k :: i <= k < parts.Length ==> parts[k] == ps[k]
      {
        var p := parts[i];
        PercentPartIs(p, free);
        if p.isSet && p.sizeType == '%' {
          parts[i] := p.(size := W32(Share(p.size, free)));
          Wrap(total0 + ShareTotal(ps, free, i), parts[i].size);
          total := W32(total + parts[i].size);
        }
        i := i + 1;
      }
    }

    /** Give every partition its offset. */
    method Place() returns (errors: nat)
      modifies parts
      ensures parts[..] == Placed(old(parts[..]))
      ensures errors == 0 <==> AllInOrder(old(parts[..]), parts.Length)
    {
      hide W32, AllInOrder, InOrder;
      ghost var ps := parts[..];
      var current, seen, i := 0, false, 0;
      errors := 0;
      assert AllInOrder(ps, 0) by {
        NoneYet(ps, 0);
      }
      while i < parts.Length
        invariant i <= parts.Length && current == Current(ps, i) && seen == SeenDefault(ps, i)
        invariant errors == 0 <==> AllInOrder(ps, i)
        invariant forall k :: 0 <= k < i ==> parts[k] == ps[k].(offset := OffsetOf(ps, k))
        invariant forall k :: i <= k < parts.Length ==> parts[k] == ps[k]
      {
        OneMoreInOrder(ps, i);
        if parts[i].isSet {
          if parts[i].offsetType == '*' {
            if i == FULL_DISK_PART {
              parts[i] := parts[i].(offset := 0);
            } else {
              parts[i] := parts[i].(offset := current);
              seen := true;
            }
          } else if parts[i].offset < current && seen && i != FULL_DISK_PART {
            errors := errors + 1;
          }
          if i != FULL_DISK_PART {
            current := W32(parts[i].offset + parts[i].size);
          }
        }
        i := i + 1;
      }
    }

    /** Look for partitions that leave the unit or overlap. */
    method Check() returns (errors: nat)
      ensures errors == 0 <==> Checked(parts[..], secperunit, parts.Length)
    {
      hide Apart, Inside, Checked;
      ghost var ps := parts[..];
      errors := 0;
      NoneYet(ps, secperunit);
      var i := 0;
      while i < parts.Length
        invariant i <= parts.Length && (errors == 0 <==> Checked(ps, secperunit, i))
      {
        var before := errors;
        OneMoreChecked(ps, secperunit, i);
        InsideIs(parts[i], secperunit);
        if parts[i].offset > secperunit {
          errors := errors + 1;
        }
        if W32(parts[i].offset + parts[i].size) > secperunit {
          errors := errors + 1;
        }
        var j := 0;
        while j < i
          invariant j <= i && before <= errors
          invariant errors == before <==> Inside(ps[i], secperunit) && forall k :: 0 <= k < j ==> Apart(ps, i, k)
        {
          ApartIs(ps, i, j);
          if j != FULL_DISK_PART && i != FULL_DISK_PART && parts[i].isSet && parts[j].isSet {
            if Collide(parts[i], parts[j]) {
              errors := errors + 1;
            }
          }
          j := j + 1;
        }
        i := i + 1;
      }
    }

    /** Give every partition its size. */
    method Size() returns (errors: nat)
      requires secsize > 0 && Words(parts[..])
      modifies parts
      ensures parts[..] == Sized(old(parts[..]), secsize, secperunit)
      ensures errors == 0 <==> PercentagesFit(old(parts[..]), secsize, secperunit)
    {
      hide W32, FixedTotal, PercentTotal, ShareTotal, FixedParts, PercentParts, Signed;
      errors := 0;
      ghost var ps := parts[..];
      var total, percent, hog := FixSizes();
      if percent != 0 {
        var free := Signed(W32(secperunit - total));
        if percent > 100 {
          errors := errors + 1;
        }
        if free > 0 {
          SharesApart(ps, secsize, secperunit, free);
          total := GiveShares(free, total);
          Wrap(FixedTotal(ps, secsize, |ps|), ShareTotal(ps, free, |ps|));
        } else {
          errors := errors + 1;
        }
      }
      if hog != -1 {
        parts[hog] := parts[hog].(size := W32(secperunit - total));
      }
    }

    /** `checklabel`: the number of errors. */
    method CheckLabel() returns (errors: nat)
      requires Words(parts[..]) && secsize >= 0 && nsectors >= 0 && ntracks >= 0
      modifies this, parts
      ensures old(secsize == 0 || nsectors == 0 || ntracks == 0) ==> errors == 1 && parts[..] == old(parts[..])
      ensures old(secsize > 0 && nsectors > 0 && ntracks > 0) ==>
        var ps := old(parts[..]);
        var spu := SectorsPerUnit(old(nsectors), old(ntracks), old(ncylinders), old(secpercyl), old(secperunit));
        && secperunit == spu && parts[..] == Placed(Sized(ps, old(secsize), spu))
        && (errors == 0 <==>
             && old(ncylinders) != 0 && old(bbsize) != 0 && old(sbsize) != 0
             && Accepted(ps, old(secsize), spu))
    {
      hide W32, Placed, AllInOrder, Checked, Sized, PercentagesFit;
      errors := 0;
      if secsize == 0 || nsectors == 0 || ntracks == 0 {
        return 1;
      }
      if ncylinders == 0 {
        errors := errors + 1;
      }
      if secpercyl == 0 {
        secpercyl := W32(nsectors * ntracks);
      }
      if secperunit == 0 {
        secperunit := W32(secpercyl * ncylinders);
      }
      if bbsize == 0 {
        errors := errors + 1;
      }
      if sbsize == 0 {
        errors := errors + 1;
      }
      var more := Size();
      errors := errors + more;
      more := Place();
      errors := errors + more;
      more := Check();
      errors := errors + more;
    }
  }

  /** The size of the unit, when the label leaves it out. */
  function SectorsPerUnit(nsectors: int, ntracks: int, ncylinders: int, secpercyl: int, secperunit: int): int {
    var spc := if secpercyl == 0 then W32(nsectors * ntracks) else secpercyl;
    if secperunit == 0 then W32(spc * ncylinders) else secperunit
  }

  /** Percentages, if there are any, do not exceed 100, and there is space to share. */
  predicate PercentagesFit(ps: seq<Part>, secsize: int, spu: int)
    requires secsize > 0
  {
    var percent := W32(PercentTotal(ps, |ps|));
    percent != 0 ==> percent <= 100 && Free(ps, secsize, spu) > 0
  }

  /** No error is found in the partitions. */
  ghost predicate Accepted(ps: seq<Part>, secsize: int, spu: int)
    requires secsize > 0
  {
    var sized := Sized(ps, secsize, spu);
    && PercentagesFit(ps, secsize, spu)
    && AllInOrder(sized, |ps|)
    && Checked(Placed(sized), spu, |ps|)
  }

  lemma NoneYet(ps: seq<Part>, spu: int)
    ensures AllInOrder(ps, 0) && Checked(ps, spu, 0)
  {
  }

  lemma OneMoreInOrder(ps: seq<Part>, i: nat)
    requires i < |ps|
    ensures AllInOrder(ps, i + 1) <==> AllInOrder(ps, i) && InOrder(ps, i)
    ensures InOrder(ps, i) <==>
      !(ps[i].isSet && ps[i].offsetType != '*' && ps[i].offset < Current(ps, i) && SeenDefault(ps, i) &&
        i != FULL_DISK_PART)
  {
    hide InOrder;
    if AllInOrder(ps, i) && InOrder(ps, i) {
      assert AllInOrder(ps, i + 1);
    }
    InOrderIs(ps, i);
  }

  lemma InOrderIs(ps: seq<Part>, i: nat)
    requires i < |ps|
    ensures InOrder(ps, i) <==>
      !(ps[i].isSet && ps[i].offsetType != '*' && ps[i].offset < Current(ps, i) && SeenDefault(ps, i) &&
        i != FULL_DISK_PART)
  {
  }

  lemma OneMoreChecked(ps: seq<Part>, spu: int, i: nat)
    requires i < |ps|
    ensures Checked(ps, spu, i + 1) <==> Checked(ps, spu, i) && Inside(ps[i], spu) && ApartBefore(ps, i)
  {
    hide ApartBefore, Inside;
  }

  /** Converting the fixed sizes leaves the percentages alone. */
  lemma SharesApart(ps: seq<Part>, secsize: int, spu: int, free: int)
    requires secsize > 0
    ensures ShareTotal(FixedParts(ps, secsize, spu), free, |ps|) == ShareTotal(ps, free, |ps|)
  {
    SharesApartUpTo(ps, secsize, spu, free, |ps|);
  }

  lemma {:induction false} SharesApartUpTo(ps: seq<Part>, secsize: int, spu: int, free: int, n: nat)
    requires secsize > 0 && n <= |ps|
    ensures ShareTotal(FixedParts(ps, secsize, spu), free, n) == ShareTotal(ps, free, n)
  {
    hide Sectors, W32;
    if n > 0 {
      SharesApartUpTo(ps, secsize, spu, free, n - 1);
    }
  }

  lemma Small(x: int)
    requires 0 <= x < WORD
    ensures W32(x) == x
  {
  }

  lemma PercentPartIs(p: Part, free: int)
    ensures PercentPart(p, free) == if IsPercent(p) then p.(size := W32(Share(p.size, free))) else p
  {
  }

  lemma InsideIs(p: Part, spu: int)
    ensures Inside(p, spu) <==> !(p.offset > spu) && !(W32(p.offset + p.size) > spu)
  {
  }

  lemma ApartIs(ps: seq<Part>, i: nat, j: nat)
    requires i < |ps| && j < |ps|
    ensures !Apart(ps, i, j) <==>
      j != FULL_DISK_PART && i != FULL_DISK_PART && ps[i].isSet && ps[j].isSet && Collide(ps[i], ps[j])
  {
  }

  lemma Wrap(a: int, b: int)
    ensures W32(W32(a) + b) == W32(a + b) && W32(W32(a)) == W32(a)
  {
  }

  lemma SectorsIs(p: Part, secsize: int)
    requires secsize > 0
    ensures Sectors(p, secsize) ==
      if p.sizeType == '\0' then p.size * Multiplier(p.sizeType) else p.size * Multiplier(p.sizeType) / secsize
  {
  }
}
