/** The write-combining cache of newfs (`wtfs`, `wtfsflush`, `rdfs`) over a disk of fixed size.

    The cache holds the bytes `wc[..wcEnd]`, which belong at sector `wcSect`.  What a reader of the
    finished file system must see is the "logical" disk: the raw disk overlaid by the cached bytes. */
module WriteCombine {
  import opened Common

  /** Size of the write-behind buffer, in bytes. */
  const WCSIZE: nat := 128 * 1024

  /** `d` with the bytes `b` written at offset `off`; bytes that fall off the end are lost. */
  function Overlay(d: seq<byte>, off: nat, b: seq<byte>): (r: seq<byte>)
    ensures |r| == |d|
    ensures forall i {:trigger r[i]} :: 0 <= i < |d| ==> r[i] == if off <= i < off + |b| then b[i - off] else d[i]
  {
    seq(|d|, i requires 0 <= i < |d| => if off <= i < off + |b| then b[i - off] else d[i])
  }

  /** Two adjacent writes are one write of the concatenation. */
  lemma OverlayAdjacent(d: seq<byte>, off: nat, a: seq<byte>, b: seq<byte>)
    ensures Overlay(Overlay(d, off, a), off + |a|, b) == Overlay(d, off, a + b)
  {
    var l, r := Overlay(Overlay(d, off, a), off + |a|, b), Overlay(d, off, a + b);
    assert |l| == |r|;
    forall i | 0 <= i < |l| ensures l[i] == r[i] {
    }
  }

  class Writer {
    const sectorSize: nat
    /** Memory file system: every access goes straight to the memory image. */
    const mfs: bool
    /** Print only, never write (`-N`). */
    const noWrite: bool
    var disk: seq<byte>
    var wc: array<byte>
    var wcSect: nat
    var wcEnd: nat

    ghost predicate Valid()
      reads this, wc
    {
      wc.Length == WCSIZE && wcEnd < WCSIZE && (mfs || noWrite ==> wcEnd == 0)
    }

    ghost function Image(): (r: seq<byte>)
      reads this, wc
      requires wc.Length == WCSIZE && wcEnd <= WCSIZE
      ensures |r| == |disk|
    {
      Overlay(disk, wcSect * sectorSize, wc[..wcEnd])
    }

    /** The raw disk overlaid by the cached bytes. */
    ghost function Logical(): (r: seq<byte>)
      reads this, wc
      requires Valid()
      ensures |r| == |disk|
    {
      Image()
    }

    /** What the logical disk becomes when `bf` is written at sector `bno`. */
    ghost function After(bno: nat, bf: seq<byte>): seq<byte>
      reads this, wc
      requires Valid()
    {
      if noWrite && !mfs then Logical() else Overlay(Logical(), bno * sectorSize, bf)
    }

    /** True when the cached bytes fit on the disk, so that flushing them will succeed. */
    ghost predicate Fits()
      reads this
    {
      wcEnd == 0 || wcSect * sectorSize + wcEnd <= |disk|
    }

    constructor (image: seq<byte>, sectorSize: nat, mfs: bool, noWrite: bool)
      ensures Valid() && fresh(wc) && Logical() == image && disk == image && wcEnd == 0
      ensures this.sectorSize == sectorSize && this.mfs == mfs && this.noWrite == noWrite
    {
      this.sectorSize, this.mfs, this.noWrite := sectorSize, mfs, noWrite;
      disk := image;
      wc := new byte[WCSIZE];
      wcSect, wcEnd := 0, 0;
      new;
      assert wc[..0] == [];
      assert Logical() == image;
    }

    /** A positioned write to the raw device: all of it, or the process exits. */
    method DeviceWrite(off: nat, b: seq<byte>) returns (ok: bool)
      modifies `disk
      ensures ok == (off + |b| <= |disk|)
      ensures disk == if ok then Overlay(old(disk), off, b) else old(disk)
    {
      ok := off + |b| <= |disk|;
      if ok {
        disk := Overlay(disk, off, b);
      }
    }

    /** Write the dirty bytes and empty the cache. */
    method Flush() returns (ok: bool)
      requires wc.Length == WCSIZE && wcEnd <= WCSIZE
      modifies this
      ensures wc == old(wc) && wcSect == old(wcSect)
      ensures ok == old(wcEnd == 0 || wcSect * sectorSize + wcEnd <= |disk|)
      ensures ok ==> wcEnd == 0 && disk == Overlay(old(disk), old(wcSect) * sectorSize, old(wc[..wcEnd]))
      ensures !ok ==> disk == old(disk) && wcEnd == old(wcEnd)
    {
      ok := true;
      if wcEnd != 0 {
        ok := DeviceWrite(wcSect * sectorSize, wc[..wcEnd]);
        if !ok {
          return;
        }
        wcEnd := 0;
      } else {
        assert wc[..wcEnd] == [];
        assert disk == Overlay(disk, wcSect * sectorSize, wc[..wcEnd]);
      }
    }

    /** Append `bf` to the cached bytes. */
    method CopyIn(bf: seq<byte>)
      requires wc.Length == WCSIZE && wcEnd + |bf| <= WCSIZE
      modifies `wcEnd, wc
      ensures wcEnd == old(wcEnd) + |bf| && wc[..wcEnd] == old(wc[..wcEnd]) + bf
    {
      forall i | 0 <= i < |bf| {
        wc[wcEnd + i] := bf[i];
      }
      wcEnd := wcEnd + |bf|;
    }

    /** Keep a write in the buffer if the buffer is empty, or if the write continues the cached bytes.
        (A write that fills the empty buffer exactly cannot also continue it.) */
    method Combine(bno: nat, bf: seq<byte>) returns (done: bool)
      requires wc.Length == WCSIZE && wcEnd < WCSIZE
      modifies `wcSect, `wcEnd, wc
      ensures wcEnd <= WCSIZE
      ensures !done ==> wcSect == old(wcSect) && wcEnd == old(wcEnd) && wc[..] == old(wc[..])
      ensures done ==> Image() == Overlay(old(Image()), bno * sectorSize, bf)
      ensures done ==> old(Fits()) && bno * sectorSize + |bf| <= |disk| ==> Fits()
    {
      ghost var was := Image();
      if wcEnd == 0 && |bf| <= WCSIZE {
        assert wc[..0] == [];
        assert was == disk;
        wcSect := bno;
        CopyIn(bf);
        assert [] + bf == bf;
        done := true;
      } else if wcSect * sectorSize + wcEnd == bno * sectorSize && wcEnd + |bf| <= WCSIZE {
        OverlayAdjacent(disk, wcSect * sectorSize, wc[..wcEnd], bf);
        CopyIn(bf);
        done := true;
      } else {
        done := false;
      }
    }

    /** Write `bf` at sector `bno`, possibly only into the cache.  On success the logical disk has
        changed by exactly that write.  `ok` is false only where the process exits. */
    method Write(bno: nat, bf: seq<byte>) returns (ok: bool)
      requires Valid()
      modifies this, wc
      ensures wc == old(wc) && |disk| == old(|disk|)
      ensures ok ==> Valid()
      ensures ok ==> Logical() == old(After(bno, bf))
      ensures ok && noWrite && !mfs ==> disk == old(disk)
      ensures old(Fits()) && bno * sectorSize + |bf| <= |disk| ==> ok && Fits()
    {
      assert wc[..0] == [];
      if mfs {
        ok := DeviceWrite(bno * sectorSize, bf);
        return;
      }
      if noWrite {
        return true;
      }
      var done := Combine(bno, bf);
      if done && wcEnd < WCSIZE {
        return true;
      }
      assert !done ==> Image() == old(Image());
      ok := Flush();
      if !ok || done {
        assert wc[..0] == [];
        return;
      }
      assert wc[..0] == [];
      ok := DeviceWrite(bno * sectorSize, bf);
    }

    /** Read `size` bytes at sector `bno`: the cache is flushed first, so the bytes are logical ones. */
    method Read(bno: nat, size: nat) returns (ok: bool, bf: seq<byte>)
      requires Valid()
      modifies this, wc
      ensures wc == old(wc)
      ensures ok ==> Valid() && wcEnd == 0 && disk == old(Logical()) == Logical()
      ensures ok ==> bno * sectorSize + size <= |disk| && bf == old(Logical())[bno * sectorSize..][..size]
      ensures old(Fits()) && bno * sectorSize + size <= old(|disk|) ==> ok
    {
      bf := [];
      ok := Flush();
      if !ok {
        return;
      }
      assert wc[..0] == [];
      ok := bno * sectorSize + size <= |disk|;
      if ok {
        bf := disk[bno * sectorSize..][..size];
      }
    }
  }

  /** One call made by the rest of newfs. */
  datatype Op = PutBlock(bno: nat, data: seq<byte>) | GetBlock(bno: nat, size: nat) | Sync

  /** The call stays on a disk of `n` bytes. */
  predicate InRange(op: Op, sectorSize: nat, n: nat) {
    match op
    case PutBlock(bno, data) => bno * sectorSize + |data| <= n
    case GetBlock(bno, size) => bno * sectorSize + size <= n
    case Sync => true
  }

  /** A disk without any cache after `ops`. */
  function PlainDisk(d: seq<byte>, sectorSize: nat, ops: seq<Op>): (r: seq<byte>)
    ensures |r| == |d|
  {
    if ops == [] then d
    else
      var prev := PlainDisk(d, sectorSize, ops[..|ops| - 1]);
      match ops[|ops| - 1]
      case PutBlock(bno, data) => Overlay(prev, bno * sectorSize, data)
      case _ => prev
  }

  /** What the reads among `ops` return on a disk without any cache. */
  function PlainReads(d: seq<byte>, sectorSize: nat, ops: seq<Op>): seq<seq<byte>>
    requires forall op <- ops :: InRange(op, sectorSize, |d|)
  {
    if ops == [] then []
    else
      var front, op := ops[..|ops| - 1], ops[|ops| - 1];
      assert op in ops && InRange(op, sectorSize, |d|);
      if op.GetBlock? then
        PlainReads(d, sectorSize, front) + [PlainDisk(d, sectorSize, front)[op.bno * sectorSize..][..op.size]]
      else PlainReads(d, sectorSize, front)
  }

  /** A byte of the plain disk is the one put there by the last write that covers it. */
  lemma {:induction false} PlainDiskLastWriteWins(d: seq<byte>, sectorSize: nat, ops: seq<Op>, k: nat, a: nat)
    requires k < |ops| && ops[k].PutBlock?
    requires a < |d| && ops[k].bno * sectorSize <= a < ops[k].bno * sectorSize + |ops[k].data|
    requires forall j :: k < j < |ops| && ops[j].PutBlock? ==>
      !(ops[j].bno * sectorSize <= a < ops[j].bno * sectorSize + |ops[j].data|)
    ensures PlainDisk(d, sectorSize, ops)[a] == ops[k].data[a - ops[k].bno * sectorSize]
    decreases |ops|
  {
    var front := ops[..|ops| - 1];
    if k < |ops| - 1 {
      PlainDiskLastWriteWins(d, sectorSize, front, k, a);
    }
  }

  /** What no write covers stays as it was. */
  lemma {:induction false} PlainDiskKeeps(d: seq<byte>, sectorSize: nat, ops: seq<Op>, a: nat)
    requires a < |d|
    requires forall j :: 0 <= j < |ops| && ops[j].PutBlock? ==>
      !(ops[j].bno * sectorSize <= a < ops[j].bno * sectorSize + |ops[j].data|)
    ensures PlainDisk(d, sectorSize, ops)[a] == d[a]
    decreases |ops|
  {
    if ops != [] {
      PlainDiskKeeps(d, sectorSize, ops[..|ops| - 1], a);
    }
  }

  /** Reads answer in turn: the second part of a run answers as on the disk that the first part has left. */
  lemma {:induction false} ReadsInTurn(d: seq<byte>, sectorSize: nat, a: seq<Op>, b: seq<Op>)
    requires forall op <- a + b :: InRange(op, sectorSize, |d|)
    ensures (forall op <- a :: InRange(op, sectorSize, |d|)) && (forall op <- b :: InRange(op, sectorSize, |d|))
    ensures PlainDisk(d, sectorSize, a + b) == PlainDisk(PlainDisk(d, sectorSize, a), sectorSize, b)
    ensures PlainReads(d, sectorSize, a + b) ==
      PlainReads(d, sectorSize, a) + PlainReads(PlainDisk(d, sectorSize, a), sectorSize, b)
    decreases |b|
  {
    assert forall op :: op in a || op in b ==> op in a + b;
    if b == [] {
      assert a + b == a;
    } else {
      var front := b[..|b| - 1];
      assert (a + b)[..|a + b| - 1] == a + front;
      assert forall op <- a + front :: op in a + b;
      ReadsInTurn(d, sectorSize, a, front);
    }
  }

  /** A read directly behind a write of the same bytes returns them; a read alone returns the disk's own. */
  lemma ReadBack(d: seq<byte>, sectorSize: nat, bno: nat, data: seq<byte>)
    requires bno * sectorSize + |data| <= |d|
    ensures PlainReads(d, sectorSize, [PutBlock(bno, data), Sync, GetBlock(bno, |data|)]) == [data]
    ensures PlainReads(d, sectorSize, [GetBlock(bno, |data|)]) == [d[bno * sectorSize..][..|data|]]
  {
    var put, get: Op := PutBlock(bno, data), GetBlock(bno, |data|);
    assert forall op <- [get] :: InRange(op, sectorSize, |d|);
    assert PlainReads(d, sectorSize, []) == [] && [get][..0] == [];
    assert forall op <- [put, Sync] :: InRange(op, sectorSize, |d|);
    assert forall op <- [put, Sync] + [get] :: InRange(op, sectorSize, |d|);
    assert [put, Sync, get] == [put, Sync] + [get];
    ReadsInTurn(d, sectorSize, [put, Sync], [get]);
    assert [put, Sync][..1] == [put] && [put][..0] == [];
    assert PlainReads(d, sectorSize, [put]) == [] && PlainReads(d, sectorSize, [put, Sync]) == [];
    assert PlainDisk(d, sectorSize, [put]) == Overlay(d, bno * sectorSize, data);
    assert PlainDisk(d, sectorSize, [get]) == d;
    assert PlainDisk(d, sectorSize, [put, Sync]) == PlainDisk(d, sectorSize, [put]);
    assert Overlay(d, bno * sectorSize, data)[bno * sectorSize..][..|data|] == data;
  }

  /** The buffer holds 128 kilobytes. */
  lemma BufferSize()
    ensures WCSIZE == 131072
  {
  }

  /** Any run of calls within the disk succeeds, every read returns what a plain disk would return,
      and a final flush leaves the raw disk equal to the plain one. */
  method RunAll(w: Writer, ops: seq<Op>) returns (ok: bool, got: seq<seq<byte>>)
    requires w.Valid() && w.Fits() && (w.noWrite ==> w.mfs)
    requires forall op <- ops :: InRange(op, w.sectorSize, |w.disk|)
    modifies w, w.wc
    ensures ok && w.Valid() && w.wcEnd == 0
    ensures w.disk == PlainDisk(old(w.Logical()), w.sectorSize, ops)
    ensures got == PlainReads(old(w.Logical()), w.sectorSize, ops)
  {
    ghost var start := w.Logical();
    got := [];
    for i := 0 to |ops|
      invariant w.wc == old(w.wc) && w.Valid() && w.Fits() && |w.disk| == |start|
      invariant w.Logical() == PlainDisk(start, w.sectorSize, ops[..i])
      invariant forall op <- ops[..i] :: InRange(op, w.sectorSize, |start|)
      invariant got == PlainReads(start, w.sectorSize, ops[..i])
    {
      assert ops[i] in ops;
      assert ops[..i + 1][..i] == ops[..i];
      match ops[i]
      case PutBlock(bno, data) => ok := w.Write(bno, data);
      case GetBlock(bno, size) =>
        var data;
        ok, data := w.Read(bno, size);
        got := got + [data];
      case Sync =>
        ok := w.Flush();
        assert w.wc[..0] == [];
    }
    assert ops[..|ops|] == ops;
    ok := w.Flush();
    assert w.wc[..0] == [];
  }
}
