/** The output side of dd: `dd_out`, with short and interrupted writes and sparse seeking. */
module DdOutput {
  import opened Common

  function Zeros(n: nat): (r: seq<byte>)
    ensures |r| == n && forall i :: 0 <= i < n ==> r[i] == 0
  {
    seq(n, _ => 0)
  }

  lemma ZerosAppend(m: nat, n: nat)
    ensures Zeros(m) + Zeros(n) == Zeros(m + n)
  {
  }

  /** A file whose position is past its end and which has a pending hole stands for this file. */
  function Materialised(file: seq<byte>, pos: nat, pending: nat): seq<byte>
    requires |file| <= pos
  {
    file + Zeros(pos - |file|) + Zeros(pending)
  }

  /** Lengthening the hole, seeking over it, and writing behind it each append to that file. */
  lemma MaterialisedSteps(file: seq<byte>, pos: nat, pending: nat, n: nat, data: seq<byte>)
    requires |file| <= pos
    ensures Materialised(file, pos, pending + n) == Materialised(file, pos, pending) + Zeros(n)
    ensures Materialised(file, |file| + pending, 0) == Materialised(file, |file|, pending)
    ensures Materialised(file + Zeros(pos - |file|) + data, pos + |data|, 0) == Materialised(file, pos, 0) + data
  {
    assert Zeros(0) == [];
    ZerosAppend(pending, n);
  }

  predicate AllZero(s: seq<byte>) {
    forall i :: 0 <= i < |s| ==> s[i] == 0
  }

  lemma AllZeroIs(s: seq<byte>)
    requires AllZero(s)
    ensures s == Zeros(|s|)
  {
  }

  /** What the kernel answers to one `write`: everything, a prefix, EINTR, or another error. */
  datatype Reply = Full | Short(n: nat) | Interrupted | Failed

  // ---------------------------------------------------------------- what the answers make of the data

  /** How far the output has got: it stopped at an error, or a hole of `pending` bytes has not been seeked
      over yet and the answers in `script` are still to come; when they run out every write succeeds. */
  datatype Progress = Stuck | Going(pending: nat, script: seq<Reply>)

  /** The output: its block size, whether conv=sparse is given, whether it is a tape, and whether one can seek
      on it. */
  datatype Device = Device(dbsz: nat, sparse: bool, tape: bool, seekable: bool)

  function Next(script: seq<Reply>): Reply {
    if script == [] then Full else script[0]
  }

  function After(script: seq<Reply>): (r: seq<Reply>)
    ensures script != [] ==> |r| < |script|
  {
    if script == [] then [] else script[1..]
  }

  /** One block, in as many writes as it takes.  Zeros that are left lengthen the hole, unless the call is
      forced; a write ends the hole, which has to be seeked over. */
  function Put(dev: Device, force: bool, data: seq<byte>, pending: nat, script: seq<Reply>): Progress
    decreases |script|
  {
    if dev.sparse && !force && AllZero(data) then Going(pending + |data|, script)
    else if pending > 0 && !dev.seekable then Stuck
    else
      match Next(script)
      case Full => Going(0, After(script))
      case Failed => Stuck
      case Interrupted => if dev.tape then Stuck else Put(dev, force, data, 0, After(script))
      case Short(n) =>
        if n >= |data| then Going(0, After(script))
        else if n == 0 || dev.tape then Stuck
        else Put(dev, force, data[n..], 0, After(script))
  }

  /** The size of the whole records among `n` bytes. */
  function Whole(cbsz: nat, n: nat): (k: nat)
    requires cbsz > 0
    ensures k <= n < k + cbsz
  {
    if n < cbsz then 0 else cbsz + Whole(cbsz, n - cbsz)
  }

  /** All whole output blocks of `s`; less than a block stays behind. */
  function Drain(dev: Device, s: seq<byte>, p: Progress): Progress
    requires dev.dbsz > 0
    decreases |s|
  {
    if |s| < dev.dbsz || p.Stuck? then p
    else Drain(dev, s[dev.dbsz..], Put(dev, false, s[..dev.dbsz], p.pending, p.script))
  }

  lemma {:induction false} DrainSplits(dev: Device, a: seq<byte>, b: seq<byte>, p: Progress)
    requires dev.dbsz > 0 && Whole(dev.dbsz, |a|) == |a|
    ensures Drain(dev, a + b, p) == Drain(dev, b, Drain(dev, a, p))
    decreases |a|
  {
    hide Put;
    if a == [] {
      assert a + b == b;
    } else if p.Going? {
      var n := dev.dbsz;
      assert (a + b)[..n] == a[..n] && (a + b)[n..] == a[n..] + b;
      DrainSplits(dev, a[n..], b, Put(dev, false, a[..n], p.pending, p.script));
    } else {
      StuckIs(dev, a + b);
      StuckIs(dev, b);
      StuckIs(dev, a);
    }
  }

  lemma StuckIs(dev: Device, s: seq<byte>)
    requires dev.dbsz > 0
    ensures Drain(dev, s, Stuck) == Stuck
  {
  }

  lemma {:induction false} WholeWhole(cbsz: nat, n: nat)
    requires cbsz > 0
    ensures Whole(cbsz, Whole(cbsz, n)) == Whole(cbsz, n)
  {
    if n >= cbsz {
      WholeWhole(cbsz, n - cbsz);
    }
  }

  /** Whole records may be counted from any record boundary. */
  lemma {:induction false} WholeFrom(cbsz: nat, k: nat, n: nat)
    requires cbsz > 0 && k <= n && Whole(cbsz, k) == k
    ensures Whole(cbsz, n) == k + Whole(cbsz, n - k)
    decreases k
  {
    if k >= cbsz {
      WholeFrom(cbsz, k - cbsz, n - cbsz);
    }
  }

  /** More data: what was left behind comes first. */
  lemma DrainMore(dev: Device, s: seq<byte>, d: seq<byte>, p: Progress)
    requires dev.dbsz > 0
    ensures var k := Whole(dev.dbsz, |s|);
      && Drain(dev, s + d, p) == Drain(dev, s[k..] + d, Drain(dev, s, p))
      && Whole(dev.dbsz, |s| + |d|) == k + Whole(dev.dbsz, |s| - k + |d|)
  {
    hide Drain, Whole;
    var k := Whole(dev.dbsz, |s|);
    WholeWhole(dev.dbsz, |s|);
    WholeFrom(dev.dbsz, k, |s| + |d|);
    DrainSplits(dev, s[..k], s[k..] + d, p);
    DrainSplits(dev, s[..k], s[k..], p);
    assert s[..k] + (s[k..] + d) == s + d && s[..k] + s[k..] == s;
    Small(dev, s[k..], Drain(dev, s[..k], p));
  }

  lemma Small(dev: Device, s: seq<byte>, p: Progress)
    requires dev.dbsz > 0 && |s| < dev.dbsz
    ensures Drain(dev, s, p) == p
  {
  }

  /** Once the output has stopped, more data does not help. */
  lemma StuckStays(dev: Device, s: seq<byte>, d: seq<byte>, p: Progress)
    requires dev.dbsz > 0 && Drain(dev, s, p) == Stuck
    ensures Drain(dev, s + d, p) == Stuck
  {
    hide Drain;
    DrainMore(dev, s, d, p);
    StuckIs(dev, s[Whole(dev.dbsz, |s|)..] + d);
  }

  /** The answers with which no write fails: bytes are written, or, except on a tape, the write is cut short
      or interrupted; and holes can be seeked over. */
  predicate Harmless(dev: Device, script: seq<Reply>) {
    && (dev.sparse ==> dev.seekable)
    && forall i :: 0 <= i < |script| ==> match script[i]
      case Full => true
      case Failed => false
      case Interrupted => !dev.tape
      case Short(n) => !dev.tape && n > 0
  }

  lemma {:induction false} HarmlessPut(dev: Device, force: bool, data: seq<byte>, pending: nat, script: seq<Reply>)
    requires Harmless(dev, script) && (pending > 0 ==> dev.sparse)
    ensures var p := Put(dev, force, data, pending, script);
      p.Going? && Harmless(dev, p.script) && (p.pending > 0 ==> dev.sparse)
    decreases |script|
  {
    if !(dev.sparse && !force && AllZero(data)) && script != [] {
      match script[0]
      case Full =>
      case Failed =>
      case Interrupted => HarmlessPut(dev, force, data, 0, script[1..]);
      case Short(n) =>
        if n < |data| {
          HarmlessPut(dev, force, data[n..], 0, script[1..]);
        }
    }
  }

  lemma {:induction false} HarmlessDrain(dev: Device, s: seq<byte>, p: Progress)
    requires dev.dbsz > 0 && p.Going? && Harmless(dev, p.script) && (p.pending > 0 ==> dev.sparse)
    ensures var q := Drain(dev, s, p); q.Going? && Harmless(dev, q.script) && (q.pending > 0 ==> dev.sparse)
    decreases |s|
  {
    hide Put, Harmless;
    if |s| >= dev.dbsz {
      HarmlessPut(dev, false, s[..dev.dbsz], p.pending, p.script);
      HarmlessDrain(dev, s[dev.dbsz..], Put(dev, false, s[..dev.dbsz], p.pending, p.script));
    }
  }

  // ---------------------------------------------------------------- the forced call

  /** The answers left when a forced call has seeked over the hole and written its last byte. */
  function AfterHole(pending: nat, script: seq<Reply>): seq<Reply> {
    if pending == 0 then script else After(script)
  }

  /** Was that byte, the first of the buffer, written?  The result of the write is ignored. */
  predicate HoleWritten(pending: nat, script: seq<Reply>) {
    pending > 0 && (Next(script).Full? || (Next(script).Short? && Next(script).n > 0))
  }

  /** A forced call: the hole, and whatever is buffered. */
  function Forced(dev: Device, data: seq<byte>, pending: nat, script: seq<Reply>): Progress {
    if pending > 0 && !dev.seekable then Stuck
    else if data == [] then Going(0, AfterHole(pending, script))
    else Put(dev, true, data, 0, AfterHole(pending, script))
  }

  lemma {:induction false} ForcedLeavesNoHole(dev: Device, data: seq<byte>, script: seq<Reply>)
    ensures var p := Put(dev, true, data, 0, script); p.Going? ==> p.pending == 0
    decreases |script|
  {
    match Next(script)
    case Full =>
    case Failed =>
    case Interrupted =>
      if script != [] && !dev.tape {
        ForcedLeavesNoHole(dev, data, script[1..]);
      }
    case Short(n) =>
      if script != [] && n < |data| && n > 0 && !dev.tape {
        ForcedLeavesNoHole(dev, data[n..], script[1..]);
      }
  }

  /** The file left by a forced call: the hole's last byte is overwritten by the first buffered byte, then
      the buffer is written. */
  function ForcedFile(file: seq<byte>, pending: nat, holeWritten: bool, first: byte, data: seq<byte>): seq<byte> {
    if pending == 0 then file + data
    else if holeWritten then file + Zeros(pending - 1) + [first] + data
    else if data == [] then file
    else file + Zeros(pending - 1) + data
  }

  /** Exactly when a forced call completes the file. */
  lemma ForcedFileExact(file: seq<byte>, pending: nat, holeWritten: bool, first: byte, data: seq<byte>)
    ensures ForcedFile(file, pending, holeWritten, first, data) == file + Zeros(pending) + data
            <==> pending == 0 || (holeWritten && first == 0)
  {
    var got, want := ForcedFile(file, pending, holeWritten, first, data), file + Zeros(pending) + data;
    if pending > 0 && holeWritten {
      if first == 0 {
        assert Zeros(pending - 1) + [first] == Zeros(pending);
        assert got == want;
      } else {
        assert got[|file| + pending - 1] == first;
        assert want[|file| + pending - 1] == 0;
      }
    } else if pending > 0 {
      assert |got| < |want|;
    } else {
      assert file + Zeros(0) == file;
    }
  }

  lemma AppendNothing(img: seq<byte>)
    ensures img + [] == img
  {
  }

  lemma SubSlices(s: seq<byte>, p: nat, nw: nat, cnt: nat)
    requires nw <= cnt && p + cnt <= |s|
    ensures s[p..p + cnt][..nw] == s[p..p + nw] && s[p..p + cnt][nw..] == s[p + nw..p + cnt]
    ensures nw == 0 ==> s[p..p + nw] == []
  {
  }

  lemma JoinSlices(img: seq<byte>, s: seq<byte>, i: nat, j: nat, k: nat)
    requires i <= j <= k <= |s|
    ensures img + s[i..j] + s[j..k] == img + s[i..k]
    ensures i == j ==> img + s[i..j] == img
  {
    assert s[i..k] == s[i..j] + s[j..k];
  }

  class Output {
    /** The buffer, the fill pointer and count, and the output block size. */
    const db: array<byte>
    const dbsz: nat
    var dbp: nat
    var dbcnt: nat
    /** Is conv=sparse given?  Is the output a tape?  Can one seek on it? */
    const sparse: bool
    const tape: bool
    const seekable: bool
    /** The output file, the file position, the length of the hole not yet seeked over. */
    var file: seq<byte>
    var pos: nat
    var pending: nat
    /** The bytes written or skipped so far (`st.bytes`). */
    var bytes: nat
    /** The answers to the coming writes; when they run out every write succeeds. */
    var script: seq<Reply>
    /** The file and the answers at the beginning, the bytes put out since, and how many came last. */
    ghost const start: seq<byte>
    ghost const answers: seq<Reply>
    ghost var stream: seq<byte>
    ghost var last: nat

    ghost predicate Valid()
      reads this
    {
      && 0 < dbsz <= db.Length && dbcnt <= db.Length && pos == |file| && (pending > 0 ==> sparse)
      && bytes + |start| == |file| + pending
    }

    ghost function Dev(): Device {
      Device(dbsz, sparse, tape, seekable)
    }

    /** The file as it will be once the position and the pending hole are materialised. */
    ghost function Image(): seq<byte>
      reads this
      requires |file| <= pos
    {
      Materialised(file, pos, pending)
    }

    /** Every byte produced so far: the image of the file followed by the buffered bytes. */
    ghost function Logical(): seq<byte>
      reads this, db
      requires |file| <= pos && dbcnt <= db.Length
    {
      Image() + db[..dbcnt]
    }

    /** What holds between two unforced calls: `stream` has been put out, less than a block of it is still in
        the buffer, and hole and answers are what the whole blocks of it have left. */
    ghost predicate Tracked()
      reads this, db
    {
      && Valid() && dbp == dbcnt == |stream| - Whole(dbsz, |stream|) && Logical() == start + stream
      && Drain(Dev(), stream, Going(0, answers)) == Going(pending, script)
    }

    /** When the buffer is empty, it still begins with the byte that was first in it at the last call. */
    ghost predicate Stale()
      reads this, db
    {
      stream != [] && dbcnt == 0 ==>
        0 < last <= |stream| && 0 < dbsz <= db.Length && db[0] == stream[Whole(dbsz, |stream| - last)]
    }

    /** `piece` has been put behind the buffered bytes. */
    ghost predicate Behind(piece: seq<byte>)
      reads this, db
    {
      && Valid() && piece != [] && dbp == dbcnt == |stream| - Whole(dbsz, |stream|) + |piece|
      && Logical() == start + (stream + piece)
      && Drain(Dev(), stream, Going(0, answers)) == Going(pending, script)
    }

    constructor (db: array<byte>, dev: Device, file: seq<byte>, script: seq<Reply>)
      requires 0 < dev.dbsz <= db.Length
      ensures bytes == last == 0 && start == file && stream == [] && answers == script
      ensures this.db == db && Dev() == dev && this.script == script
      ensures Valid() && dbp == dbcnt == 0 && pending == 0 && this.file == file && Logical() == file
      ensures Tracked() && Stale()
    {
      this.db, this.file, this.script := db, file, script;
      dbsz, sparse, tape, seekable := dev.dbsz, dev.sparse, dev.tape, dev.seekable;
      dbp, dbcnt, pos, pending, bytes := 0, 0, |file|, 0, 0;
      start, answers, stream, last := file, script, [], 0;
      new;
      assert db[..0] == [] && Zeros(0) == [];
      assert start + stream == file;
    }

    /** The `write` system call at the current position: `nw` is -1 for an error. */
    method SysWrite(data: seq<byte>) returns (nw: int, eintr: bool)
      requires |file| <= pos
      modifies `file, `pos, `script
      ensures script == After(old(script))
      ensures var reply := Next(old(script));
        && (eintr <==> reply.Interrupted?)
        && nw == match reply
             case Full => |data|
             case Short(n) => if n < |data| then n else |data|
             case _ => -1
      ensures |file| <= pos
      ensures nw <= 0 ==> file == old(file) && pos == old(pos)
      ensures nw > 0 ==> file == old(file + Zeros(pos - |file|)) + data[..nw] && pos == |file|
      ensures old(pending) == 0 ==> Image() == if nw > 0 then old(Image()) + data[..nw] else old(Image())
    {
      hide Zeros;
      var reply := Full;
      if script != [] {
        reply, script := script[0], script[1..];
      }
      nw, eintr := -1, false;
      match reply {
        case Interrupted => eintr := true;
        case Failed =>
        case Full => nw := |data|;
        case Short(n) => nw := if n < |data| then n else |data|;
      }
      if nw > 0 {
        MaterialisedSteps(file, pos, pending, 0, data[..nw]);
        file := file + Zeros(pos - |file|) + data[..nw];
        pos := |file|;
      }
    }

    /** Is the next piece of the buffer all NULs? */
    method IsSparse(outp: nat, cnt: nat) returns (r: bool)
      requires outp + cnt <= db.Length
      ensures r == (sparse && AllZero(db[outp..outp + cnt]))
    {
      if !sparse {
        return false;
      }
      for i := 0 to cnt
        invariant AllZero(db[outp..outp + i])
      {
        if db[outp + i] != 0 {
          assert db[outp..outp + cnt][i] != 0;
          return false;
        }
        assert db[outp..outp + i + 1] == db[outp..outp + i] + [0];
      }
      return true;
    }

    /** Seek over the pending hole.  A forced call stops one byte short and writes the first byte of
        the piece there, ignoring the result. */
    method SeekHole(outp: nat, force: bool) returns (ok: bool, holeWritten: bool)
      requires outp < db.Length && pos == |file|
      modifies `file, `pos, `script, `pending
      ensures ok <==> old(pending) == 0 || seekable
      ensures ok ==> |file| <= pos && pending == 0
      ensures ok ==> script == if force then AfterHole(old(pending), old(script)) else old(script)
      ensures holeWritten == (force && seekable && HoleWritten(old(pending), old(script)))
      ensures old(pending) == 0 ==> file == old(file) && pos == old(pos)
      ensures ok && old(pending) > 0 && !force ==> file == old(file) && pos == old(pos + pending)
      ensures ok && old(pending) > 0 && force ==>
        if holeWritten then pos == |file| && file == old(file + Zeros(pending - 1) + [db[outp]])
        else file == old(file) && pos == old(pos + pending) - 1
    {
      holeWritten := false;
      if pending != 0 {
        if force {
          pending := pending - 1;
        }
        if !seekable {
          return false, false;
        }
        pos := pos + pending;
        if force {
          var nw, _ := SysWrite(db[outp..outp + 1]);
          holeWritten := nw == 1;
        }
        pending := 0;
      }
      ok := true;
    }

    /** Get the next `cnt` bytes at `p` on their way: all of them into the pending hole, or some of
        them (`nw`) into the file. */
    method PutPiece(p: nat, cnt: nat, force: bool) returns (ok: bool, nw: nat)
      requires p + cnt <= db.Length && 0 < cnt && |file| <= pos
      requires pending > 0 ==> sparse && pos == |file|
      requires if force then pending == 0 else pos == |file| || !AllZero(db[p..p + cnt])
      modifies `file, `pos, `script, `pending
      ensures ok ==> nw <= cnt && |file| <= pos
      ensures ok ==> Image() == old(Image()) + db[p..p + nw]
      ensures ok ==> (pending > 0 ==> sparse && pos == |file|)
      ensures ok && nw > 0 ==> pos == |file|
      ensures ok && nw < cnt ==> pending == 0 && |script| < |old(script)|
      ensures ok && nw == 0 ==> force || pos == |file| || !AllZero(db[p..p + cnt])
      ensures ok && force ==> pending == 0
      ensures Put(Dev(), force, db[p..p + cnt], old(pending), old(script)) ==
        if !ok || (nw < cnt && tape) then Stuck
        else if nw == cnt then Going(pending, script)
        else Put(Dev(), force, db[p + nw..p + cnt], 0, script)
    {
      hide Materialised, Zeros, AllZero;
      ghost var data, all := db[p..p + cnt], db[..];
      nw := 0;
      var sparseNow := IsSparse(p, cnt);
      if sparseNow && !force {
        MaterialisedSteps(file, pos, pending, cnt, []);
        AllZeroIs(data);
        pending := pending + cnt;
        return true, cnt;
      }
      ghost var img, file0, pending0 := Image(), file, pending;
      if pending != 0 {
        MaterialisedSteps(file, pos, pending, 0, []);
        var seeked, _ := SeekHole(p, false);
        if !seeked {
          return false, 0;
        }
        assert file == file0 && pos == |file0| + pending0 && pending == 0;
      }
      assert Image() == img;
      assert db[p..p + cnt] == data;
      var got, eintr := SysWrite(db[p..p + cnt]);
      if got == 0 || (got < 0 && !eintr) {
        return false, 0;
      }
      ok := true;
      if !eintr {
        nw := got;
      }
      SubSlices(all, p, nw, cnt);
      assert db[p..p + cnt] == data && db[p..p + nw] == all[p..p + nw] && db[p + nw..p + cnt] == all[p + nw..p + cnt];
      AppendNothing(img);
    }

    /** The inner loop: get one block of `n` bytes starting at `outp` out, in as many writes as it takes. */
    method PutBlock(outp: nat, n: nat, force: bool) returns (ok: bool)
      requires outp + n <= db.Length && 0 < n && |file| <= pos && (pending > 0 ==> sparse)
      requires if force then pending == 0 else pos == |file|
      modifies `file, `pos, `script, `pending, `bytes
      ensures ok ==> pos == |file| && bytes == old(bytes) + n && (pending > 0 ==> sparse && !force)
      ensures ok ==> Image() == old(Image()) + db[outp..outp + n]
      ensures Put(Dev(), force, db[outp..outp + n], old(pending), old(script)) ==
        if ok then Going(pending, script) else Stuck
    {
      hide Zeros, AllZero, Put;
      var p, cnt := outp, n;
      ghost var img, all := Image(), db[..];
      ghost var all0, put := db[outp..outp + n], Put(Dev(), force, db[outp..outp + n], pending, script);
      JoinSlices(img, all, outp, outp, outp);
      while true
        invariant outp <= p && p + cnt == outp + n && cnt > 0 && |file| <= pos
        invariant pending > 0 ==> sparse && pos == |file|
        invariant if force then pending == 0 else pos == |file| || !AllZero(db[p..p + cnt])
        invariant bytes == old(bytes) + p - outp
        invariant Image() == img + all[outp..p]
        invariant put == Put(Dev(), force, db[p..p + cnt], pending, script)
        decreases cnt, |script|
      {
        var nw;
        ok, nw := PutPiece(p, cnt, force);
        if !ok {
          return;
        }
        JoinSlices(img, all, outp, p, p + nw);
        assert db[p..p + nw] == all[p..p + nw];
        p := p + nw;
        bytes := bytes + nw;
        if nw == n || nw == cnt {
          assert db[outp..outp + n] == all[outp..p];
          return;
        }
        if tape {
          return false;
        }
        cnt := cnt - nw;
      }
    }

    /** Move the last `dbcnt` of the first `dbp` bytes to the front of the buffer. */
    method Reassemble()
      requires dbcnt <= dbp <= db.Length
      modifies `dbp, db
      ensures dbp == dbcnt && db[..dbcnt] == old(db[dbp - dbcnt..dbp])
      ensures dbcnt == 0 ==> db[..] == old(db[..])
    {
      forall i | 0 <= i < dbcnt {
        db[i] := db[dbp - dbcnt + i];
      }
      dbp := dbcnt;
    }

    /** One output block of an unforced call. */
    method NextBlock(outp: nat) returns (ok: bool)
      requires Valid() && outp + dbcnt == dbp <= db.Length && dbsz <= dbcnt
      modifies `file, `pos, `script, `pending, `bytes, `dbcnt
      ensures ok ==> Valid() && dbcnt == old(dbcnt) - dbsz && bytes == old(bytes) + dbsz
      ensures ok ==> Image() == old(Image()) + db[outp..outp + dbsz]
      ensures Drain(Dev(), db[outp..dbp], Going(old(pending), old(script))) ==
        if ok then Drain(Dev(), db[outp + dbsz..dbp], Going(pending, script)) else Stuck
    {
      hide Drain, Put, Zeros;
      ghost var all := db[..];
      DrainStep(Dev(), all, outp, dbp, Going(pending, script));
      assert db[outp..dbp] == all[outp..dbp] && db[outp..outp + dbsz] == all[outp..outp + dbsz];
      assert db[outp + dbsz..dbp] == all[outp + dbsz..dbp];
      ok := PutBlock(outp, dbsz, false);
      if ok {
        dbcnt := dbcnt - dbsz;
      } else {
        StuckIs(Dev(), all[outp + dbsz..dbp]);
      }
    }

    /** The outer loop of an unforced call: one output block after the other, until less than one is left. */
    method PutBlocks() returns (ok: bool)
      requires Valid() && dbp == dbcnt && dbsz <= dbcnt
      modifies `file, `pos, `script, `pending, `bytes, `dbcnt
      ensures ok ==> Valid() && dbcnt < dbsz && dbcnt == old(dbcnt) - Whole(dbsz, old(dbcnt))
      ensures ok ==> Image() == old(Image()) + db[..dbp - dbcnt]
      ensures ok ==> bytes + dbcnt == old(bytes + dbcnt)
      ensures Drain(Dev(), db[..dbp], Going(old(pending), old(script))) == if ok then Going(pending, script) else Stuck
    {
      hide Drain, Put, Whole, Materialised, Valid;
      Bounds();
      var outp := 0;
      ghost var img, all := Image(), db[..];
      ghost var drained := Drain(Dev(), db[..dbp], Going(pending, script));
      assert db[0..dbp] == db[..dbp];
      JoinSlices(img, all, 0, 0, 0);
      while true
        invariant outp + dbcnt == dbp <= db.Length && 0 < dbsz <= dbcnt && Valid() && |file| <= pos
        invariant Image() == img + all[0..outp]
        invariant bytes == old(bytes) + outp
        invariant drained == Drain(Dev(), db[outp..dbp], Going(pending, script))
        invariant outp + Whole(dbsz, dbcnt) == Whole(dbsz, dbp)
        decreases dbcnt
      {
        WholeStep(dbsz, dbcnt);
        assert db[outp..outp + dbsz] == all[outp..outp + dbsz];
        ok := NextBlock(outp);
        if !ok {
          return;
        }
        Bounds();
        JoinSlices(img, all, 0, outp, outp + dbsz);
        outp := outp + dbsz;
        if dbcnt < dbsz {
          assert db[..outp] == all[0..outp];
          Small(Dev(), db[outp..dbp], Going(pending, script));
          WholeSmall(dbsz, dbcnt);
          return;
        }
      }
    }

    lemma Bounds()
      requires Valid()
      ensures 0 < dbsz <= db.Length && dbcnt <= db.Length && |file| <= pos
    {
    }

    /** `dd_out(0)`: write the full output blocks and keep the rest.  Nothing produced so far is lost,
        repeated or reordered, however the kernel splits the writes; it stops exactly when they say so. */
    method FlushFull() returns (ok: bool)
      requires Valid() && dbp == dbcnt && dbsz <= dbcnt
      modifies `file, `pos, `script, `pending, `bytes, `dbcnt, `dbp, db
      ensures ok ==> Valid() && dbp == dbcnt == old(dbcnt) - Whole(dbsz, old(dbcnt)) < dbsz
      ensures ok ==> Logical() == old(Logical())
      ensures ok ==> bytes + dbcnt == old(bytes + dbcnt)
      ensures ok && dbcnt == 0 ==> db[0] == old(db[0])
      ensures Drain(Dev(), old(db[..dbcnt]), Going(old(pending), old(script))) ==
        if ok then Going(pending, script) else Stuck
    {
      hide Drain, Materialised, Whole;
      ghost var img, data, first := Image(), db[..dbcnt], db[0];
      ok := PutBlocks();
      if ok {
        ghost var gone, kept, all := db[..dbp - dbcnt], db[dbp - dbcnt..dbp], db[..];
        assert data == all[..dbp] && gone == all[..dbp - dbcnt] && kept == all[dbp - dbcnt..dbp];
        assert data == gone + kept && all[0] == first;
        Reassemble();
        assert db[..dbcnt] == kept;
        assert dbcnt == 0 ==> db[0] == db[..][0];
        assert img + data == img + gone + kept;
      }
    }

    /** `piece` has been put behind the buffered bytes: hand full blocks on. */
    method Hand(ghost piece: seq<byte>) returns (ok: bool)
      requires Behind(piece)
      modifies this, db
      ensures stream == old(stream) + piece && last == |piece|
      ensures ok ==> Tracked() && Stale()
      ensures !ok ==> Drain(Dev(), stream, Going(0, answers)) == Stuck
    {
      hide Drain, Whole, Materialised;
      ghost var held, data, all := dbcnt - |piece|, db[..dbcnt], stream + piece;
      DrainMore(Dev(), stream, piece, Going(0, answers));
      BufferIs(Image(), data, start, stream, piece, dbsz);
      stream, last := all, |piece|;
      ok := true;
      if dbcnt >= dbsz {
        ok := FlushFull();
      } else {
        Small(Dev(), data, Going(pending, script));
        WholeSmall(dbsz, dbcnt);
      }
    }

    /** `dd_out(1)`: write everything buffered, whatever its size. */
    method FlushForced() returns (ok: bool, holeWritten: bool)
      requires Valid()
      modifies `file, `pos, `script, `pending, `bytes, `dbcnt, `dbp
      ensures Forced(Dev(), db[..old(dbcnt)], old(pending), old(script)) == if ok then Going(0, script) else Stuck
      ensures holeWritten == (seekable && HoleWritten(old(pending), old(script)))
      ensures ok ==> dbcnt == 0 && pending == 0 && bytes == old(bytes + dbcnt)
      ensures ok ==> file == ForcedFile(old(file), old(pending), holeWritten, db[0], db[..old(dbcnt)])
      ensures ok && old(pending) == 0 ==> Valid() && dbp == if old(dbcnt) == 0 then old(dbp) else 0
    {
      hide Put, Materialised, Zeros;
      ok, holeWritten := SeekHole(0, true);
      if !ok {
        return;
      }
      NoGap(file, pos);
      if dbcnt == 0 {
        assert db[..0] == [] && |ForcedFile(file, 0, false, db[0], [])| == |file|;
        return true, holeWritten;
      }
      ok := FlushBuffer();
    }

    /** Write the buffered bytes behind what has been seeked over. */
    method FlushBuffer() returns (ok: bool)
      requires 0 < dbcnt <= db.Length && |file| <= pos && pending == 0
      modifies `file, `pos, `script, `pending, `bytes, `dbcnt, `dbp
      ensures Put(Dev(), true, db[..old(dbcnt)], 0, old(script)) == if ok then Going(0, script) else Stuck
      ensures ok ==> dbcnt == dbp == 0 && pending == 0 && bytes == old(bytes + dbcnt)
      ensures ok ==> pos == |file| && file == old(file + Zeros(pos - |file|)) + db[..old(dbcnt)]
    {
      hide Put, Zeros, Materialised;
      ghost var data := db[..dbcnt];
      assert db[0..dbcnt] == data;
      ForcedLeavesNoHole(Dev(), data, script);
      MaterialisedIs(file, pos);
      ok := PutBlock(0, dbcnt, true);
      if !ok {
        return;
      }
      MaterialisedIs(file, pos);
      NoGap(file, pos);
      dbcnt := 0;
      dbp := 0;
    }
  }

  lemma MaterialisedIs(file: seq<byte>, pos: nat)
    requires |file| <= pos
    ensures Materialised(file, pos, 0) == file + Zeros(pos - |file|)
  {
    assert Zeros(0) == [];
  }

  lemma NoGap(file: seq<byte>, pos: nat)
    requires |file| <= pos
    ensures pos == |file| ==> file + Zeros(pos - |file|) == file
  {
    assert Zeros(0) == [];
  }

  lemma DrainStep(dev: Device, s: seq<byte>, i: nat, j: nat, p: Progress)
    requires 0 < dev.dbsz && i + dev.dbsz <= j <= |s| && p.Going?
    ensures Drain(dev, s[i..j], p) ==
      Drain(dev, s[i + dev.dbsz..j], Put(dev, false, s[i..i + dev.dbsz], p.pending, p.script))
  {
    hide Put;
    assert s[i..j][..dev.dbsz] == s[i..i + dev.dbsz] && s[i..j][dev.dbsz..] == s[i + dev.dbsz..j];
  }

  lemma WholeStep(cbsz: nat, n: nat)
    requires 0 < cbsz <= n
    ensures Whole(cbsz, n) == cbsz + Whole(cbsz, n - cbsz)
  {
  }

  lemma WholeSmall(cbsz: nat, n: nat)
    requires n < cbsz
    ensures Whole(cbsz, n) == 0
  {
  }

  /** The buffer holds the end of everything put out. */
  lemma BufferIs(img: seq<byte>, data: seq<byte>, start: seq<byte>, stream: seq<byte>, piece: seq<byte>, dbsz: nat)
    requires dbsz > 0 && img + data == start + (stream + piece) && piece != []
    requires |data| == |stream| - Whole(dbsz, |stream|) + |piece|
    ensures data == stream[Whole(dbsz, |stream|)..] + piece
    ensures data[0] == (stream + piece)[Whole(dbsz, |stream|)]
  {
    hide Whole;
    var all, k := stream + piece, Whole(dbsz, |stream|);
    assert all[k..] == stream[k..] + piece;
    assert (img + data)[|img|..] == data;
    assert (start + all)[|start| + k..] == all[k..];
  }
}
