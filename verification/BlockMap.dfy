/** The fragment bitmap of a cylinder group: `isblock`, `setblock`, `clrblock` and the single-bit macros,
    on packed bytes, for 1, 2, 4 or 8 fragments a block. */
module BlockMap {

  /** The byte with only bit `k` set. */
  function Mask(k: nat): bv8
    requires k < 8
  {
    match k
    case 0 => 1 case 1 => 2 case 2 => 4 case 3 => 8 case 4 => 16 case 5 => 32 case 6 => 64 case _ => 128
  }

  predicate Bit(b: bv8, k: nat)
    requires k < 8
  {
    b & Mask(k) != 0
  }

  /** Is bit `d` of the packed map set? */
  predicate IsSet(cp: seq<bv8>, d: nat)
    requires d / 8 < |cp|
  {
    Bit(cp[d / 8], d % 8)
  }

  predicate FragSize(frag: nat) {
    frag == 1 || frag == 2 || frag == 4 || frag == 8
  }

  /** `b << n`. */
  function Shift(b: bv8, n: nat): bv8
    requires n < 8
  {
    match n
    case 0 => b case 1 => b << 1 case 2 => b << 2 case 3 => b << 3
    case 4 => b << 4 case 5 => b << 5 case 6 => b << 6 case _ => b << 7
  }

  /** The byte that holds block `h`, and the bits of it that belong to the block. */
  function ByteOf(frag: nat, h: nat): nat
    requires FragSize(frag)
  {
    if frag == 8 then h else if frag == 4 then h / 2 else if frag == 2 then h / 4 else h / 8
  }

  function MaskOf(frag: nat, h: nat): bv8
    requires FragSize(frag)
  {
    if frag == 8 then 0xff
    else if frag == 4 then Shift(0x0f, (h % 2) * 4)
    else if frag == 2 then Shift(0x03, (h % 4) * 2)
    else Shift(0x01, h % 8)
  }

  /** Bit `k` of the byte of block `h` belongs to the block exactly when its fragment number says so. */
  lemma MaskOfBlock(frag: nat, h: nat, k: nat)
    requires FragSize(frag) && k < 8
    ensures Bit(MaskOf(frag, h), k) <==> (8 * ByteOf(frag, h) + k) / frag == h
  {
    if frag == 8 {
      assert k == 0 || k == 1 || k == 2 || k == 3 || k == 4 || k == 5 || k == 6 || k == 7;
    } else if frag == 4 {
      assert h % 2 == 0 || h % 2 == 1;
    } else if frag == 2 {
      assert h % 4 == 0 || h % 4 == 1 || h % 4 == 2 || h % 4 == 3;
    }
  }

  lemma OrBit(a: bv8, m: bv8, k: nat)
    requires k < 8
    ensures Bit(a | m, k) <==> Bit(a, k) || Bit(m, k)
  {
  }

  lemma AndNotBit(a: bv8, m: bv8, k: nat)
    requires k < 8
    ensures Bit(a & !m, k) <==> Bit(a, k) && !Bit(m, k)
  {
  }

  lemma CoversMask(a: bv8, m: bv8)
    ensures a & m == m <==> forall k :: 0 <= k < 8 && Bit(m, k) ==> Bit(a, k)
  {
    if forall k :: 0 <= k < 8 && Bit(m, k) ==> Bit(a, k) {
      assert Bit(m, 0) ==> Bit(a, 0);
      assert Bit(m, 1) ==> Bit(a, 1);
      assert Bit(m, 2) ==> Bit(a, 2);
      assert Bit(m, 3) ==> Bit(a, 3);
      assert Bit(m, 4) ==> Bit(a, 4);
      assert Bit(m, 5) ==> Bit(a, 5);
      assert Bit(m, 6) ==> Bit(a, 6);
      assert Bit(m, 7) ==> Bit(a, 7);
    }
  }

  /** All fragments of block `h` are free. */
  predicate BlockFree(frag: nat, cp: seq<bv8>, h: nat)
    requires FragSize(frag) && ByteOf(frag, h) < |cp|
  {
    forall d :: 8 * ByteOf(frag, h) <= d < 8 * ByteOf(frag, h) + 8 && d / frag == h ==> IsSet(cp, d)
  }

  lemma BlockFreeBits(frag: nat, cp: seq<bv8>, h: nat)
    requires FragSize(frag) && ByteOf(frag, h) < |cp|
    ensures BlockFree(frag, cp, h) <==> cp[ByteOf(frag, h)] & MaskOf(frag, h) == MaskOf(frag, h)
  {
    hide MaskOf, ByteOf, Bit;
    var x, m := ByteOf(frag, h), MaskOf(frag, h);
    CoversMask(cp[x], m);
    forall k | 0 <= k < 8
      ensures Bit(m, k) <==> (8 * x + k) / frag == h
      ensures IsSet(cp, 8 * x + k) <==> Bit(cp[x], k)
    {
      MaskOfBlock(frag, h, k);
    }
    assert forall d :: 8 * x <= d < 8 * x + 8 ==> (IsSet(cp, d) <==> Bit(cp[x], d - 8 * x));
  }

  /** The map with block `h` put in, or taken out, differs in the fragments of `h` only. */
  lemma SetBlockBits(frag: nat, cp: seq<bv8>, h: nat, d: nat)
    requires FragSize(frag) && ByteOf(frag, h) < |cp| && d / 8 < |cp|
    ensures var x := ByteOf(frag, h);
      IsSet(cp[x := cp[x] | MaskOf(frag, h)], d) <==> IsSet(cp, d) || d / frag == h
  {
    hide MaskOf, Bit;
    if d / 8 == ByteOf(frag, h) {
      OrBit(cp[d / 8], MaskOf(frag, h), d % 8);
      MaskOfBlock(frag, h, d % 8);
    }
  }

  lemma ClrBlockBits(frag: nat, cp: seq<bv8>, h: nat, d: nat)
    requires FragSize(frag) && ByteOf(frag, h) < |cp| && d / 8 < |cp|
    ensures var x := ByteOf(frag, h);
      IsSet(cp[x := cp[x] & !MaskOf(frag, h)], d) <==> IsSet(cp, d) && d / frag != h
  {
    hide MaskOf, Bit;
    if d / 8 == ByteOf(frag, h) {
      AndNotBit(cp[d / 8], MaskOf(frag, h), d % 8);
      MaskOfBlock(frag, h, d % 8);
    }
  }

  lemma OtherByte(frag: nat, h: nat, d: nat)
    requires FragSize(frag)
    ensures d / frag == h ==> d / 8 == ByteOf(frag, h)
  {
  }

  /** `isblock`: is block `h` free? */
  method IsBlock(frag: nat, cp: array<bv8>, h: nat) returns (r: bool)
    requires FragSize(frag) && ByteOf(frag, h) < cp.Length
    ensures r <==> BlockFree(frag, cp[..], h)
  {
    hide MaskOf, BlockFree;
    var mask := MaskOf(frag, h);
    r := cp[ByteOf(frag, h)] & mask == mask;
    BlockFreeBits(frag, cp[..], h);
  }

  /** `setblock`: put block `h` into the map. */
  method SetBlock(frag: nat, cp: array<bv8>, h: nat)
    requires FragSize(frag) && ByteOf(frag, h) < cp.Length
    modifies cp
    ensures forall d :: 0 <= d < 8 * cp.Length ==> (IsSet(cp[..], d) <==> IsSet(old(cp[..]), d) || d / frag == h)
  {
    hide MaskOf, IsSet, ByteOf;
    var x := ByteOf(frag, h);
    ghost var was := cp[..];
    cp[x] := cp[x] | MaskOf(frag, h);
    assert cp[..] == was[x := was[x] | MaskOf(frag, h)];
    forall d | 0 <= d < 8 * cp.Length
      ensures IsSet(cp[..], d) <==> IsSet(was, d) || d / frag == h
    {
      SetBlockBits(frag, was, h, d);
    }
  }

  /** `clrblock`: take block `h` out of the map. */
  method ClrBlock(frag: nat, cp: array<bv8>, h: nat)
    requires FragSize(frag) && ByteOf(frag, h) < cp.Length
    modifies cp
    ensures forall d :: 0 <= d < 8 * cp.Length ==> (IsSet(cp[..], d) <==> IsSet(old(cp[..]), d) && d / frag != h)
  {
    hide MaskOf, IsSet, ByteOf;
    var x := ByteOf(frag, h);
    ghost var was := cp[..];
    cp[x] := cp[x] & !MaskOf(frag, h);
    assert cp[..] == was[x := was[x] & !MaskOf(frag, h)];
    forall d | 0 <= d < 8 * cp.Length
      ensures IsSet(cp[..], d) <==> IsSet(was, d) && d / frag != h
    {
      ClrBlockBits(frag, was, h, d);
    }
  }

  /** `setbit`. */
  method SetBit(cp: array<bv8>, n: nat)
    requires n / 8 < cp.Length
    modifies cp
    ensures forall d :: 0 <= d < 8 * cp.Length ==> (IsSet(cp[..], d) <==> IsSet(old(cp[..]), d) || d == n)
  {
    SetBlock(1, cp, n);
  }

  /** `clrbit`. */
  method ClrBit(cp: array<bv8>, n: nat)
    requires n / 8 < cp.Length
    modifies cp
    ensures forall d :: 0 <= d < 8 * cp.Length ==> (IsSet(cp[..], d) <==> IsSet(old(cp[..]), d) && d != n)
  {
    ClrBlock(1, cp, n);
  }
}
