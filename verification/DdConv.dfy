/** dd's copy loop: `dd_in`, the conversions `def`, `block` and `unblock`, and `dd_close`. */
module DdConv {
  import opened Common
  import opened DdOutput
  import opened DdSpec
  import opened DdRun

  class Copier {
    const cfg: Config
    const out: Output
    const inDb: array<byte>
    var inDbp: nat
    var inCnt: nat
    var inRead: nat
    var intrunc: bool
    /** Input blocks read in full and in part. */
    var inFull: nat
    var inPart: nat
    /** The input seen so far. */
    ghost var seen: seq<byte>

    /** The buffers `setup` allocates. */
    ghost predicate Buffers() {
      && cfg.Valid() && out.Dev() == cfg.Dev() && inDb.Length == cfg.InSize()
      && (cfg.mode == Def <==> inDb == out.db)
      && (cfg.mode != Def ==> out.db.Length == cfg.obs + cfg.cbsz)
    }

    /** What has been put out so far is what the input seen so far makes. */
    ghost predicate UpToDate()
      requires cfg.Valid()
      reads this, out, out.db
    {
      && out.Tracked() && out.stream == cfg.Emitted(seen)
      && (out.stream != [] ==> out.last == cfg.LastOf(seen, out.last))
    }

    /** What holds between two reads. */
    ghost predicate Valid()
      reads this, inDb, out, out.db
    {
      && Buffers() && out.Valid()
      && inDbp == inCnt && out.dbp == out.dbcnt < cfg.obs
      && (if cfg.direct then out.file == out.start + seen && out.pending == out.dbcnt == 0 else UpToDate())
      && (cfg.mode == Def ==> inCnt == out.dbcnt)
      && (cfg.mode != Def ==> inCnt < cfg.cbsz && inDb[..inCnt] == cfg.Kept(seen))
      && (cfg.mode == Block ==> (intrunc <==> Truncating(cfg.cbsz, seen)))
    }

    /** The output buffer has not been touched since something was put out, as long as nothing is kept. */
    ghost predicate Untouched()
      reads this, out, out.db
    {
      !cfg.direct && (cfg.mode == Block ==> inCnt == 0) ==> out.Stale()
    }

    /** A block `d` has just been put into the input buffer behind the kept bytes. */
    ghost predicate Loaded(d: seq<byte>)
      reads this, inDb, out, out.db
    {
      && Buffers() && inDbp == inCnt == |cfg.Kept(seen)| + |d| + (if cfg.mode == Def then out.dbcnt else 0)
      && inRead == |d| <= cfg.ibs && d != [] && inCnt <= inDb.Length
      && out.dbp == out.dbcnt < cfg.obs && !cfg.direct && UpToDate()
      && inDb[inCnt - |d|..inCnt] == d
      && (cfg.mode != Def ==> |cfg.Kept(seen)| < cfg.cbsz && inDb[..inCnt - |d|] == cfg.Kept(seen))
      && (cfg.mode == Block ==> (intrunc <==> Truncating(cfg.cbsz, seen)))
      && (cfg.mode == Unblock || (cfg.mode == Block && cfg.Kept(seen) == []) ==> out.Stale())
    }

    /** The writes stop when what `all` makes is put out. */
    ghost predicate Stops(all: seq<byte>)
      requires cfg.Valid()
    {
      Drain(cfg.Dev(), cfg.Emitted(all), Going(0, out.answers)) == Stuck
    }

    /** Allocate the buffers, as `setup` does. */
    constructor (cfg: Config, file: seq<byte>, writes: seq<Reply>)
      requires cfg.Valid()
      ensures Valid() && Untouched() && this.cfg == cfg && seen == [] && inFull == inPart == 0
      ensures out.start == file && out.answers == writes && out.script == writes && out.last == 0
      ensures fresh(inDb) && fresh(out) && fresh(out.db)
    {
      this.cfg := cfg;
      var db := new byte[if cfg.mode == Def then cfg.InSize() else cfg.obs + cfg.cbsz];
      var o := new Output(db, cfg.Dev(), file, writes);
      out := o;
      if cfg.mode == Def {
        inDb := db;
      } else {
        inDb := new byte[cfg.InSize()];
      }
      inDbp, inCnt, inRead, intrunc, inFull, inPart := 0, 0, 0, false, 0, 0;
      seen := [];
      new;
      assert cfg.Emitted([]) == [] && cfg.Kept([]) == [];
      assert out.start + seen == file && Zeros(0) == [];
    }

    /** `def`: translate the new bytes in place and hand full output blocks on. */
    method ConvDef(ghost d: seq<byte>) returns (ok: bool)
      requires cfg.mode == Def && Loaded(d)
      modifies this`inDbp, this`inCnt, this`intrunc, this`seen, inDb, out
      ensures ok ==> Valid() && Untouched() && out.last == |d|
      ensures seen == old(seen) + d && (!ok ==> Stops(seen))
    {
      hide Drain, Whole, Materialised, TrAll;
      ghost var piece := TrAll(cfg.table, d);
      TrAllAppend(cfg.table, seen, d);
      TranslateInto(d);
      seen := seen + d;
      ok := out.Hand(piece);
      if ok {
        inDbp := out.dbp;
        inCnt := out.dbcnt;
      }
    }

    /** Translate the new bytes and make the output buffer hold them. */
    method TranslateInto(ghost d: seq<byte>)
      requires cfg.mode == Def && Loaded(d)
      modifies inDb, out`dbp, out`dbcnt
      ensures out.Behind(TrAll(cfg.table, d))
    {
      hide Drain, Whole, Materialised, TrAll;
      ghost var held, was := out.db[..out.dbcnt], inDb[..inCnt];
      assert was[|held|..] == d && was[..|held|] == held;
      TranslateNew();
      ghost var now := inDb[..inCnt];
      TranslatedBehind(cfg.table, was, now, held, d);
      out.dbp := inDbp;
      out.dbcnt := inCnt;
      assert out.db[..inCnt] == now;
      PutBehind(out.Image(), held, TrAll(cfg.table, d), out.start, out.stream);
    }

    /** Translate the new bytes in place. */
    method TranslateNew()
      requires ValidTable(cfg.table) && inRead <= inDbp <= inDb.Length
      modifies inDb
      ensures forall j :: 0 <= j < inDbp - inRead ==> inDb[j] == old(inDb[j])
      ensures forall j :: inDbp - inRead <= j < inDbp ==> inDb[j] == Tr(cfg.table, old(inDb[j]))
    {
      if cfg.table.Table? {
        forall i | inDbp - inRead <= i < inDbp {
          inDb[i] := cfg.table.t[inDb[i]];
        }
      }
    }

    // ---------------------------------------------------------------- block

    /** Of the input `all`, exactly the last `inCnt` bytes are still in the buffer. */
    ghost predicate Holds(all: seq<byte>)
      reads this, inDb
    {
      && inCnt <= inDbp <= inDb.Length && inCnt <= |all|
      && forall j :: |all| - inCnt <= j < |all| ==> all[j] == inDb[j - |all| + inDbp]
    }

    /** Copy a line of at most `maxlen` bytes at the front of the buffer, translated, behind the output. */
    method CopyLine(maxlen: nat, ghost all: seq<byte>) returns (cnt: nat, newline: bool)
      requires cfg.Valid() && inDb != out.db && Holds(all) && maxlen <= inCnt
      requires out.dbp + maxlen <= out.db.Length
      modifies out.db
      ensures cnt <= maxlen && (newline <==> cnt < maxlen)
      ensures OneLine(all, |all| - inCnt, |all| - inCnt + cnt)
      ensures newline ==> all[|all| - inCnt + cnt] == NL
      ensures forall m :: 0 <= m < out.dbp ==> out.db[m] == old(out.db[m])
      ensures forall m :: out.dbp <= m < out.dbp + cnt ==>
        out.db[m] == Tr(cfg.table, all[m - out.dbp + |all| - inCnt])
    {
      cnt, newline := 0, false;
      ghost var k := |all| - inCnt;
      while cnt < maxlen
        invariant cnt <= maxlen && OneLine(all, k, k + cnt)
        invariant forall m :: 0 <= m < out.dbp ==> out.db[m] == old(out.db[m])
        invariant forall m :: out.dbp <= m < out.dbp + cnt ==> out.db[m] == Tr(cfg.table, all[m - out.dbp + k])
      {
        var ch := inDb[inDbp - inCnt + cnt];
        assert ch == all[k + cnt];
        if ch == NL {
          newline := true;
          break;
        }
        out.db[out.dbp + cnt] := Tr(cfg.table, ch);
        cnt := cnt + 1;
      }
    }

    /** Toss bytes from the front of the buffer up to a newline, and the newline. */
    method Toss(ghost all: seq<byte>) returns (ended: bool)
      requires Holds(all)
      modifies `inCnt
      ensures Holds(all) && inCnt <= old(inCnt)
      ensures ended ==> inCnt < old(inCnt) && all[|all| - inCnt - 1] == NL
      ensures OneLine(all, |all| - old(inCnt), |all| - inCnt - if ended then 1 else 0)
      ensures !ended ==> inCnt == 0
    {
      while inCnt > 0
        invariant Holds(all) && inCnt <= old(inCnt) && OneLine(all, |all| - old(inCnt), |all| - inCnt)
      {
        var ch := inDb[inDbp - inCnt];
        assert ch == all[|all| - inCnt];
        inCnt := inCnt - 1;
        if ch == NL {
          return true;
        }
      }
      return false;
    }

    /** Pad the `cnt` bytes behind the output to a record and put it out. */
    method PutRecord(cnt: nat, ghost line: seq<byte>) returns (ok: bool)
      requires Buffers() && cfg.mode == Block && out.Tracked()
      requires cnt == |line| <= cfg.cbsz
      requires forall m :: out.dbp <= m < out.dbp + cnt ==> out.db[m] == Tr(cfg.table, line[m - out.dbp])
      modifies out, out.db
      ensures out.stream == old(out.stream) + Pad(cfg.table, cfg.cbsz, line) && out.last == cfg.cbsz
      ensures ok ==> out.Tracked() && out.Stale()
      ensures !ok ==> Drain(cfg.Dev(), out.stream, Going(0, out.answers)) == Stuck
    {
      hide Drain, Whole, Materialised;
      ghost var rec, held := Pad(cfg.table, cfg.cbsz, line), out.db[..out.dbcnt];
      forall i | cnt <= i < cfg.cbsz {
        out.db[out.dbp + i] := Tr(cfg.table, SP);
      }
      out.dbp := out.dbp + cfg.cbsz;
      out.dbcnt := out.dbcnt + cfg.cbsz;
      assert out.db[..out.dbcnt] == held + rec;
      PutBehind(out.Image(), held, rec, out.start, out.stream);
      ok := out.Hand(rec);
    }

    /** The records of the first `n` bytes of the input are what has gone to the output side. */
    ghost predicate Produced(all: seq<byte>, n: nat)
      reads out, out.db
    {
      && Buffers() && cfg.mode == Block && out.Tracked() && n <= |all|
      && out.stream == Records(cfg.table, cfg.cbsz, all, n)
      && (out.stream != [] ==> out.last == cfg.cbsz)
    }

    /** What holds between two lines: only finished lines have left the buffer, and their records are out. */
    ghost predicate AtLine(all: seq<byte>)
      reads this, inDb, out, out.db
    {
      Holds(all) && LineStart(all, |all| - inCnt) == |all| - inCnt && Produced(all, |all| - inCnt)
    }

    /** Move the unconverted bytes to the front of the input buffer. */
    method Reassemble(ghost all: seq<byte>)
      requires Holds(all)
      modifies inDb
      ensures inDb[..inCnt] == all[|all| - inCnt..]
    {
      var inp := inDbp - inCnt;
      forall i | 0 <= i < inCnt {
        inDb[i] := inDb[inp + i];
      }
    }

    /** Step over the line whose first `cnt` bytes have been copied. */
    method PassLine(cnt: nat, newline: bool, ghost all: seq<byte>)
      requires cfg.Valid() && cfg.cbsz > 0 && Holds(all) && 0 < inCnt && !intrunc && cnt <= inCnt
      requires LineStart(all, |all| - inCnt) == |all| - inCnt
      requires OneLine(all, |all| - inCnt, |all| - inCnt + cnt)
      requires if newline then cnt < inCnt && cnt < cfg.cbsz && all[|all| - inCnt + cnt] == NL else cnt == cfg.cbsz
      modifies `inCnt, `intrunc
      ensures Holds(all) && inCnt < old(inCnt)
      ensures Records(cfg.table, cfg.cbsz, all, |all| - inCnt) ==
        Records(cfg.table, cfg.cbsz, all, |all| - old(inCnt)) +
        Pad(cfg.table, cfg.cbsz, all[|all| - old(inCnt)..|all| - old(inCnt) + cnt])
      ensures if intrunc then inCnt == 0 && Truncating(cfg.cbsz, all)
              else LineStart(all, |all| - inCnt) == |all| - inCnt
    {
      hide Records, LineStart, Pad;
      ghost var k := |all| - inCnt;
      inCnt := inCnt - cnt;
      if newline {
        inCnt := inCnt - 1;
        FinishedLine(cfg.table, cfg.cbsz, all, k, cnt, k + cnt);
      } else {
        var ended := Toss(all);
        if ended {
          FinishedLine(cfg.table, cfg.cbsz, all, k, cnt, |all| - inCnt - 1);
        } else {
          UnfinishedLine(cfg.table, cfg.cbsz, all, k, |all|);
          intrunc := true;
        }
      }
    }

    /** When the writes stop at the records of a part of the input, they stop at those of all of it. */
    lemma StopsAtRecords(all: seq<byte>, n: nat)
      requires Buffers() && cfg.mode == Block && n <= |all|
      requires Drain(cfg.Dev(), Records(cfg.table, cfg.cbsz, all, n), Going(0, out.answers)) == Stuck
      ensures Stops(all)
    {
      hide Drain, Records;
      RecordsGrow(cfg.table, cfg.cbsz, all, n, |all|);
      var some, full := Records(cfg.table, cfg.cbsz, all, n), Records(cfg.table, cfg.cbsz, all, |all|);
      StuckSince(cfg.Dev(), some, full, Going(0, out.answers));
    }

    /** Put out the record made of the `cnt` bytes copied from `all[k..]`. */
    method PutLine(cnt: nat, ghost all: seq<byte>, ghost k: nat, ghost n: nat) returns (ok: bool)
      requires cnt <= cfg.cbsz && k + cnt <= |all| && n <= |all| && Produced(all, k)
      requires forall m :: out.dbp <= m < out.dbp + cnt ==> out.db[m] == Tr(cfg.table, all[m - out.dbp + k])
      requires Records(cfg.table, cfg.cbsz, all, n) ==
        Records(cfg.table, cfg.cbsz, all, k) + Pad(cfg.table, cfg.cbsz, all[k..k + cnt])
      modifies out, out.db
      ensures ok ==> Produced(all, n) && out.Stale()
      ensures !ok ==> Stops(all)
    {
      hide Records, LineStart, Pad, Drain;
      ok := PutRecord(cnt, all[k..k + cnt]);
      if !ok {
        StopsAtRecords(all, n);
      }
    }

    /** One turn of the loop of `block`: convert the next line, or keep it (`stop`) until more of it is
        read.  A line that fills its record before its newline is read is tossed (`intrunc`). */
    method BlockLine(ghost all: seq<byte>) returns (ok: bool, stop: bool)
      requires AtLine(all) && inCnt > 0 && !intrunc
      modifies this`inCnt, this`intrunc, inDb, out, out.db
      ensures inCnt <= old(inCnt)
      ensures ok && !stop ==> inCnt < old(inCnt)
      ensures ok && !stop && !intrunc ==> AtLine(all)
      ensures ok && intrunc ==> !stop && inCnt == 0 && Truncating(cfg.cbsz, all) && Produced(all, |all|)
      ensures ok && stop ==> inDb[..inCnt] == Tail(cfg.cbsz, all) && !Truncating(cfg.cbsz, all) && Produced(all, |all|)
      ensures ok ==> if stop then inCnt > 0 else out.Stale()
      ensures !ok ==> Stops(all)
    {
      hide Records, LineStart, Pad, Drain, Whole;
      ghost var k := |all| - inCnt;
      var cnt, newline := CopyLine(if cfg.cbsz < inCnt then cfg.cbsz else inCnt, all);
      assert out.db[..out.dbcnt] == old(out.db[..out.dbcnt]);
      if !newline && inCnt < cfg.cbsz {
        UnfinishedLine(cfg.table, cfg.cbsz, all, k, |all|);
        Reassemble(all);
        return true, true;
      }
      stop := false;
      PassLine(cnt, newline, all);
      ok := PutLine(cnt, all, k, |all| - inCnt);
    }

    /** The loop of `block`: convert lines until the input is used up or the rest must wait. */
    method BlockLines(ghost all: seq<byte>) returns (ok: bool)
      requires AtLine(all) && !intrunc && (inCnt == 0 ==> out.Stale())
      modifies this`inCnt, this`intrunc, inDb, out, out.db
      ensures ok ==> Produced(all, |all|) && inCnt <= inDb.Length && (inCnt == 0 ==> out.Stale())
      ensures ok ==> inDb[..inCnt] == Tail(cfg.cbsz, all) && (intrunc <==> Truncating(cfg.cbsz, all))
      ensures !ok ==> Stops(all)
    {
      hide Records, LineStart, Drain, Whole;
      ok := true;
      var stop := false;
      while inCnt > 0 && !stop
        invariant !stop && !intrunc ==> AtLine(all)
        invariant intrunc ==> !stop && inCnt == 0 && Truncating(cfg.cbsz, all) && Produced(all, |all|)
        invariant stop ==> !Truncating(cfg.cbsz, all) && Produced(all, |all|)
        invariant inCnt <= inDb.Length && (stop ==> inDb[..inCnt] == Tail(cfg.cbsz, all))
        invariant inCnt == 0 ==> out.Stale()
        decreases inCnt, !stop
      {
        ok, stop := BlockLine(all);
        if !ok {
          return;
        }
      }
    }

    /** In a truncation state: toss the new bytes up to a newline, and start afresh behind it. */
    method ResumeToss(ghost all: seq<byte>)
      requires Holds(all) && intrunc && Produced(all, |all| - inCnt) && cfg.cbsz > 0
      requires |all| - inCnt - LineStart(all, |all| - inCnt) >= cfg.cbsz
      modifies this`inCnt, this`inDbp, this`intrunc
      ensures !intrunc ==> AtLine(all)
      ensures intrunc ==> inCnt == inDbp == 0 && Truncating(cfg.cbsz, all) && Produced(all, |all|)
    {
      hide Records, LineStart;
      ghost var k := |all| - inCnt;
      var ended := Toss(all);
      if ended {
        intrunc := false;
        TossedThrough(cfg.table, cfg.cbsz, all, k, |all| - inCnt - 1);
      } else {
        inDbp := 0;
        TossedLine(cfg.table, cfg.cbsz, all, k, |all|);
      }
    }

    /** The bytes in the buffer are the end of the input. */
    lemma HoldsEnd(all: seq<byte>, kept: seq<byte>, d: seq<byte>)
      requires inCnt == inDbp == |kept| + |d| <= inDb.Length && inCnt <= |all| && all[|all| - inCnt..] == kept + d
      requires inDb[..inCnt - |d|] == kept && inDb[inCnt - |d|..inCnt] == d
      ensures Holds(all)
    {
      var both := kept + d;
      assert both == inDb[..inCnt];
      assert forall j :: |all| - inCnt <= j < |all| ==> all[j] == both[j - |all| + inCnt];
    }

    /** The new bytes continue what was seen before. */
    lemma BlockResumes(all: seq<byte>, d: seq<byte>)
      requires cfg.mode == Block && Loaded(d) && all == seen + d
      ensures Holds(all) && inCnt == |Tail(cfg.cbsz, seen)| + |d| && Produced(all, |seen|)
      ensures LineStart(all, |seen|) == LineStart(seen, |seen|)
      ensures !Truncating(cfg.cbsz, seen) ==> AtLine(all)
    {
      hide Records, LineStart;
      assert all[..|seen|] == seen;
      MoreInput(cfg.table, cfg.cbsz, seen, all);
      assert all[|all| - inCnt..] == Tail(cfg.cbsz, seen) + d;
      HoldsEnd(all, Tail(cfg.cbsz, seen), d);
    }

    /** `block`: convert the lines that the new bytes finish or make long enough. */
    method ConvBlock(ghost d: seq<byte>) returns (ok: bool)
      requires cfg.mode == Block && Loaded(d)
      modifies this`inDbp, this`inCnt, this`intrunc, this`seen, inDb, out, out.db
      ensures ok ==> Valid() && Untouched()
      ensures seen == old(seen) + d && (!ok ==> Stops(seen))
    {
      hide Records, LineStart, Drain, Whole, Materialised;
      ghost var all := seen + d;
      BlockResumes(all, d);
      ok := true;
      if intrunc {
        ResumeToss(all);
      }
      if !intrunc {
        ok := BlockLines(all);
        inDbp := inCnt;
      }
      seen := all;
    }

    /** `block_close`: the kept bytes become a last record, padded but not translated. */
    method CloseBlock()
      requires cfg.mode == Block && Valid()
      modifies out`dbcnt, out.db
      ensures out.dbcnt <= out.db.Length && out.db[..out.dbcnt] == old(out.db[..out.dbcnt]) + cfg.Closing(seen)
      ensures cfg.Closing(seen) == [] ==> out.db[0] == old(out.db[0])
    {
      hide Truncating, Whole, Drain, Materialised, Records;
      ghost var rec, kept, held := cfg.Closing(seen), cfg.Kept(seen), out.db[..out.dbcnt];
      assert kept == inDb[..inCnt];
      if inCnt > 0 {
        forall i | 0 <= i < inCnt {
          out.db[out.dbp + i] := inDb[inDbp - inCnt + i];
        }
        forall i | inCnt <= i < cfg.cbsz {
          out.db[out.dbp + i] := Tr(cfg.table, SP);
        }
        out.dbcnt := out.dbcnt + cfg.cbsz;
        ghost var now := out.db[..out.dbcnt];
        RecordBehind(now, held, rec, kept, Tr(cfg.table, SP));
      } else {
        assert held + [] == held;
      }
    }

    // ---------------------------------------------------------------- unblock

    /** The length of the text in the record of `len` bytes at `inp`, trailing blanks excluded. */
    method TextLength(inp: nat, len: nat) returns (n: nat)
      requires inp + len <= inDb.Length
      ensures n <= len && inDb[inp..inp + n] == RTrim(inDb[inp..inp + len])
    {
      n := len;
      ghost var rec := inDb[inp..inp + len];
      while n > 0 && inDb[inp + n - 1] == SP
        invariant n <= len && TextEndFrom(rec, n) == TextEnd(rec)
      {
        n := n - 1;
      }
      assert inDb[inp..inp + n] == rec[..n];
    }

    /** Append the `cnt` bytes at `inp` and a newline to the output buffer. */
    method AppendText(inp: nat, cnt: nat)
      requires Buffers() && cfg.mode == Unblock && out.dbp == out.dbcnt < cfg.obs
      requires inp + cnt <= inDb.Length && cnt <= cfg.cbsz
      modifies out`dbp, out`dbcnt, out.db
      ensures out.dbp == out.dbcnt == old(out.dbcnt) + cnt + 1 <= out.db.Length
      ensures out.db[..out.dbcnt] == old(out.db[..out.dbcnt]) + (inDb[inp..inp + cnt] + [NL])
    {
      ghost var held, text, dbp := out.db[..out.dbcnt], inDb[inp..inp + cnt] + [NL], out.dbp;
      forall i | 0 <= i < cnt {
        out.db[out.dbp + i] := inDb[inp + i];
      }
      out.dbp := out.dbp + cnt;
      out.dbcnt := out.dbcnt + cnt;
      out.db[out.dbp] := NL;
      out.dbp := out.dbp + 1;
      out.dbcnt := out.dbcnt + 1;
      ghost var now := out.db[..out.dbcnt];
      assert forall j :: 0 <= j < dbp ==> now[j] == held[j];
      assert forall j :: dbp <= j < dbp + cnt ==> now[j] == inDb[inp + (j - dbp)];
      assert now == held + text;
    }

    /** Put out the `cnt` bytes at `inp` and a newline. */
    method PutText(inp: nat, cnt: nat) returns (ok: bool)
      requires Buffers() && cfg.mode == Unblock && out.Tracked()
      requires inp + cnt <= inDb.Length && cnt <= cfg.cbsz
      modifies out, out.db
      ensures out.stream == old(out.stream) + (inDb[inp..inp + cnt] + [NL]) && out.last == cnt + 1
      ensures ok ==> out.Tracked() && out.Stale()
      ensures !ok ==> Drain(cfg.Dev(), out.stream, Going(0, out.answers)) == Stuck
    {
      hide Drain, Whole, Materialised;
      ghost var held, text := out.db[..out.dbcnt], inDb[inp..inp + cnt] + [NL];
      AppendText(inp, cnt);
      PutBehind(out.Image(), held, text, out.start, out.stream);
      ok := out.Hand(text);
    }

    /** What holds between two records: only whole records have left the buffer, and their lines are out. */
    ghost predicate AtRecord(all: seq<byte>)
      reads this, inDb, out, out.db
    {
      && Buffers() && cfg.mode == Unblock && out.Tracked() && Holds(all)
      && Whole(cfg.cbsz, |all| - inCnt) == |all| - inCnt && LinesOut(all, |all| - inCnt)
    }

    /** The lines of the records up to `k` have been put out. */
    ghost predicate LinesOut(all: seq<byte>, k: nat)
      requires cfg.cbsz > 0 && k <= |all|
      reads out
    {
      && out.stream == Lines(cfg.cbsz, all, k)
      && (k >= cfg.cbsz ==> out.last == |RTrim(all[k - cfg.cbsz..k])| + 1)
    }

    /** When the writes stop at the lines of a part of the input, they stop at those of all of it. */
    lemma StopsAtLines(all: seq<byte>, k: nat)
      requires Buffers() && cfg.mode == Unblock && k <= |all| && Whole(cfg.cbsz, k) == k
      requires Drain(cfg.Dev(), Lines(cfg.cbsz, all, k), Going(0, out.answers)) == Stuck
      ensures Stops(all)
    {
      hide Drain, Lines, Whole;
      var n := Whole(cfg.cbsz, |all|);
      WholeWhole(cfg.cbsz, |all|);
      WholeGrows(cfg.cbsz, k, |all|);
      LinesGrow(cfg.cbsz, all, k, n);
      StuckSince(cfg.Dev(), Lines(cfg.cbsz, all, k), Lines(cfg.cbsz, all, n), Going(0, out.answers));
    }

    lemma NextLine(all: seq<byte>, k: nat)
      requires cfg.cbsz > 0 && k + cfg.cbsz <= |all| && Whole(cfg.cbsz, k) == k
      ensures Whole(cfg.cbsz, k + cfg.cbsz) == k + cfg.cbsz
      ensures Lines(cfg.cbsz, all, k + cfg.cbsz) == Lines(cfg.cbsz, all, k) + (RTrim(all[k..k + cfg.cbsz]) + [NL])
    {
      hide RTrim;
    }

    /** One turn of the loop of `unblock`. */
    method UnblockRecord(inp: nat, ghost all: seq<byte>) returns (ok: bool)
      requires AtRecord(all) && inp + inCnt == inDbp && cfg.cbsz <= inCnt
      modifies this`inCnt, out, out.db
      ensures ok ==> AtRecord(all) && out.Stale() && inCnt == old(inCnt) - cfg.cbsz
      ensures !ok ==> Stops(all)
    {
      hide RTrim, Lines, Whole, Drain;
      ghost var k := |all| - inCnt;
      var cnt := TextLength(inp, cfg.cbsz);
      assert inDb[inp..inp + cfg.cbsz] == all[k..k + cfg.cbsz];
      NextLine(all, k);
      ok := PutText(inp, cnt);
      inCnt := inCnt - cfg.cbsz;
      if !ok {
        StopsAtLines(all, k + cfg.cbsz);
      }
    }

    /** The new bytes continue what was seen before. */
    lemma UnblockResumes(all: seq<byte>, d: seq<byte>)
      requires cfg.mode == Unblock && Loaded(d) && all == seen + d
      ensures AtRecord(all)
    {
      hide Lines, Whole, RTrim, Drain;
      assert all[..|seen|] == seen;
      MoreRecords(cfg.cbsz, seen, all);
      var k := Whole(cfg.cbsz, |seen|);
      if k >= cfg.cbsz {
        SlicesAgree(seen, all, |seen|, k - cfg.cbsz, k);
        LastLineOf(cfg.cbsz, seen, k);
      }
      assert all[Whole(cfg.cbsz, |seen|)..] == Rest(cfg.cbsz, seen) + d;
      HoldsEnd(all, Rest(cfg.cbsz, seen), d);
    }

    /** The loop of `unblock`: convert records until less than one is left. */
    method UnblockRecords(ghost all: seq<byte>) returns (ok: bool)
      requires AtRecord(all) && inCnt == inDbp
      modifies this`inCnt, out, out.db
      ensures ok ==> AtRecord(all) && inCnt < cfg.cbsz && (old(out.Stale()) ==> out.Stale())
      ensures !ok ==> Stops(all)
    {
      hide Lines, Whole, Drain, RTrim;
      ok := true;
      var inp: nat := 0;
      while inCnt >= cfg.cbsz
        invariant AtRecord(all) && inp + inCnt == inDbp && (old(out.Stale()) ==> out.Stale())
      {
        ok := UnblockRecord(inp, all);
        if !ok {
          return;
        }
        inp := inp + cfg.cbsz;
      }
    }

    /** `unblock`: convert the records that the new bytes complete. */
    method ConvUnblock(ghost d: seq<byte>) returns (ok: bool)
      requires cfg.mode == Unblock && Loaded(d)
      modifies this`inDbp, this`inCnt, this`intrunc, this`seen, inDb, out, out.db
      ensures ok ==> Valid() && Untouched()
      ensures seen == old(seen) + d && (!ok ==> Stops(seen))
    {
      hide Lines, Drain, Whole, RTrim, Materialised;
      ghost var all := seen + d;
      UnblockResumes(all, d);
      seen := all;
      ok := UnblockRecords(all);
      if !ok {
        return;
      }
      KeepRest();
    }

    /** Move the bytes of the last, unfinished record to the front of the input buffer. */
    method KeepRest()
      requires AtRecord(seen) && out.Stale() && inCnt < cfg.cbsz
      modifies this`inDbp, inDb
      ensures Valid() && Untouched()
    {
      hide Lines, Drain, Whole, RTrim, Materialised;
      LastRecord(cfg.cbsz, seen, |seen| - inCnt);
      LastLineOf(cfg.cbsz, seen, |seen| - inCnt);
      Reassemble(seen);
      inDbp := inCnt;
    }

    /** `unblock_close`: the kept bytes become a last, short record. */
    method CloseUnblock()
      requires cfg.mode == Unblock && Valid()
      modifies out`dbp, out`dbcnt, out.db
      ensures out.dbcnt <= out.db.Length && out.db[..out.dbcnt] == old(out.db[..out.dbcnt]) + cfg.Closing(seen)
      ensures cfg.Closing(seen) == [] ==> out.db[0] == old(out.db[0])
    {
      hide Whole, Drain, Materialised, Lines;
      if inCnt > 0 {
        var cnt := TextLength(0, inCnt);
        assert inDb[0..inCnt] == Rest(cfg.cbsz, seen);
        AppendText(0, cnt);
      } else {
        assert out.db[..out.dbcnt] + [] == out.db[..out.dbcnt];
      }
    }

    // ---------------------------------------------------------------- the copy loop

    /** conv=sync: clear the part of the buffer that is read into. */
    method ClearNew()
      requires cfg.Valid() && inDbp + cfg.ibs <= inDb.Length
      modifies inDb
      ensures inDb[..inDbp] == old(inDb[..inDbp])
      ensures cfg.sync ==> inDb[inDbp..inDbp + cfg.ibs] == Copies(cfg.PadByte(), cfg.ibs)
      ensures !cfg.sync ==> inDb[..] == old(inDb[..])
    {
      if cfg.sync {
        forall i | 0 <= i < cfg.ibs {
          inDb[inDbp + i] := cfg.PadByte();
        }
      }
    }

    /** `read` behind the kept bytes, padded under conv=sync. */
    method FillNew(reply: ReadReply)
      requires cfg.Valid() && inDbp + cfg.ibs <= inDb.Length
      requires if reply.Data? then 0 < |reply.bytes| <= cfg.ibs else cfg.sync
      modifies inDb
      ensures inDb[..inDbp] == old(inDb[..inDbp])
      ensures inDb[inDbp..inDbp + |cfg.RawBlockOf(reply)|] == cfg.RawBlockOf(reply)
    {
      ghost var kept := inDb[..inDbp];
      ClearNew();
      if reply.Data? {
        ghost var dbp, was := inDbp, inDb[..];
        forall i | 0 <= i < |reply.bytes| {
          inDb[inDbp + i] := reply.bytes[i];
        }
        ghost var now := inDb[..];
        assert forall j :: 0 <= j < |now| ==>
          now[j] == if dbp <= j < dbp + |reply.bytes| then reply.bytes[j - dbp] else was[j];
        assert was[..dbp] == kept;
        assert cfg.sync ==> was[dbp..dbp + cfg.ibs] == Copies(cfg.PadByte(), cfg.ibs);
        ReadInto(cfg, reply, was, now, dbp);
        assert inDb[..inDbp] == now[..dbp];
        assert inDb[inDbp..inDbp + |cfg.RawBlockOf(reply)|] == now[dbp..dbp + |cfg.RawBlockOf(reply)|];
      }
    }

    /** Read one block behind the kept bytes, padding it under conv=sync and swapping it under conv=swab.
        `dies` is an error without conv=noerror, `skip` an error whose block is omitted. */
    method ReadBlock(reply: ReadReply) returns (dies: bool, skip: bool)
      requires cfg.Valid() && inCnt == inDbp && inDbp + cfg.ibs <= inDb.Length
      requires reply.Data? ==> 0 < |reply.bytes| <= cfg.ibs
      modifies `inRead, `inCnt, `inFull, `inPart, inDb
      ensures dies <==> cfg.Fatal(reply)
      ensures skip <==> reply.ReadError? && cfg.noerror && !cfg.sync
      ensures inDb[..inDbp] == old(inDb[..inDbp])
      ensures dies || skip ==> inCnt == old(inCnt) && inFull + inPart == old(inFull + inPart)
      ensures dies || skip ==> inDb[..] == old(inDb[..])
      ensures !dies && !skip ==>
        && inRead == |cfg.BlockOf(reply)| <= cfg.ibs && inCnt == inDbp + inRead && inRead > 0
        && inDb[inDbp..inDbp + inRead] == cfg.BlockOf(reply)
        && inFull + inPart == old(inFull + inPart) + 1
    {
      dies := reply.ReadError? && !cfg.noerror;
      skip := reply.ReadError? && cfg.noerror && !cfg.sync;
      if dies || skip {
        return;
      }
      FillNew(reply);
      if reply.ReadError? || |reply.bytes| == cfg.ibs {
        inRead := cfg.ibs;
        inFull := inFull + 1;
      } else {
        inRead := if cfg.sync then cfg.ibs else |reply.bytes|;
        inPart := inPart + 1;
      }
      inCnt := inCnt + inRead;
      if cfg.swab {
        SwabNew();
      }
    }

    /** Swap the pairs of the new bytes in place; an odd last byte stays. */
    method SwabNew()
      requires inDbp + inRead <= inDb.Length
      modifies inDb
      ensures inDb[inDbp..inDbp + inRead] == Swab(old(inDb[inDbp..inDbp + inRead]))
      ensures inDb[..inDbp] == old(inDb[..inDbp])
    {
      hide SwabAt;
      ghost var d, kept := inDb[inDbp..inDbp + inRead], inDb[..inDbp];
      var i := 0;
      while i + 1 < inRead
        invariant 0 <= i <= inRead && i % 2 == 0
        invariant forall j :: 0 <= j < inDbp ==> inDb[j] == kept[j]
        invariant forall j :: inDbp <= j < inDbp + i ==> inDb[j] == SwabAt(d, j - inDbp)
        invariant forall j :: inDbp + i <= j < inDbp + inRead ==> inDb[j] == d[j - inDbp]
      {
        SwabPair(d, i);
        inDb[inDbp + i], inDb[inDbp + i + 1] := inDb[inDbp + i + 1], inDb[inDbp + i];
        i := i + 2;
      }
      if i < inRead {
        SwabPair(d, i);
      }
    }

    /** Read a block to be converted. */
    method LoadBlock(reply: ReadReply) returns (dies: bool, skip: bool)
      requires Valid() && Untouched() && !cfg.direct && (reply.Data? ==> 0 < |reply.bytes| <= cfg.ibs)
      modifies `inRead, `inCnt, `inDbp, `inFull, `inPart, inDb
      ensures dies <==> cfg.Fatal(reply)
      ensures skip <==> reply.ReadError? && cfg.noerror && !cfg.sync
      ensures skip ==> Valid() && Untouched() && inFull + inPart == old(inFull + inPart)
      ensures !dies && !skip ==> Loaded(cfg.BlockOf(reply)) && inFull + inPart == old(inFull + inPart) + 1
    {
      hide Lines, Records, Tail, Rest, Truncating, TrAll, Drain, Whole, Materialised;
      ghost var kept, held, all, all0 := inDb[..inCnt], out.db[..out.dbcnt], inDb[..], out.db[..];
      dies, skip := ReadBlock(reply);
      assert inDb[..inDbp] == kept;
      assert out.db[..out.dbcnt] == held;
      assert dies || skip || cfg.mode != Def ==> out.db[..] == all0;
      assert dies || skip || cfg.mode != Def ==> out.db[0] == all0[0];
      if !dies && !skip {
        inDbp := inDbp + inRead;
      }
    }

    /** One turn of the loop of `dd_in` without bs=: read a block and convert it. */
    method CopyConverted(reply: ReadReply) returns (ok: bool)
      requires Valid() && Untouched() && !cfg.direct && (reply.Data? ==> 0 < |reply.bytes| <= cfg.ibs)
      modifies this, inDb, out, out.db
      ensures ok ==> Valid() && Untouched() && seen == old(seen) + cfg.BlockOf(reply) && !cfg.Fatal(reply)
      ensures ok ==> inFull + inPart == old(inFull + inPart) + if reply.Data? || cfg.sync then 1 else 0
      ensures ok && cfg.mode == Def ==>
        out.last == if cfg.BlockOf(reply) == [] then old(out.last) else |cfg.BlockOf(reply)|
      ensures !ok ==> cfg.Fatal(reply) || Stops(old(seen) + cfg.BlockOf(reply))
    {
      hide Lines, Records, Tail, Rest, Truncating, TrAll, Swab, Drain, Whole;
      var dies, skip := LoadBlock(reply);
      if dies {
        return false;
      }
      if skip {
        assert cfg.BlockOf(reply) == [];
        return true;
      }
      match cfg.mode {
        case Def => ok := ConvDef(cfg.BlockOf(reply));
        case Block => ok := ConvBlock(cfg.BlockOf(reply));
        case Unblock => ok := ConvUnblock(cfg.BlockOf(reply));
      }
    }

    /** bs= without conversions: the block is written as it is, in one forced call. */
    method CopyDirect(reply: ReadReply) returns (ok: bool)
      requires Valid() && cfg.direct && (reply.Data? ==> 0 < |reply.bytes| <= cfg.ibs)
      modifies this, inDb, out, out.db
      ensures ok ==> Valid() && seen == old(seen) + cfg.BlockOf(reply) && !cfg.Fatal(reply)
      ensures ok ==> inFull + inPart == old(inFull + inPart) + if reply.Data? || cfg.sync then 1 else 0
      ensures !cfg.Fatal(reply) ==>
        Forced(cfg.Dev(), cfg.BlockOf(reply), 0, old(out.script)) == if ok then Going(0, out.script) else Stuck
      ensures cfg.Fatal(reply) ==> !ok
    {
      hide Put;
      var dies, skip := ReadBlock(reply);
      if dies || skip {
        assert skip ==> cfg.BlockOf(reply) == [];
        return !dies;
      }
      ok := WriteDirect(cfg.BlockOf(reply));
    }

    method WriteDirect(ghost d: seq<byte>) returns (ok: bool)
      requires Buffers() && cfg.direct && cfg.mode == Def && out.Valid() && out.pending == 0
      requires inDbp == out.dbp == out.dbcnt == 0 && inCnt == |d| <= inDb.Length && inDb[..|d|] == d
      requires out.file == out.start + seen
      modifies this`inCnt, this`seen, out
      ensures ok ==> Valid() && seen == old(seen) + d
      ensures Forced(cfg.Dev(), d, 0, old(out.script)) == if ok then Going(0, out.script) else Stuck
    {
      hide Put, Zeros, Materialised;
      out.dbcnt := inCnt;
      var hole;
      ok, hole := out.FlushForced();
      inCnt := 0;
      Assoc(out.start, seen, d);
      seen := seen + d;
    }

    /** How far the copy loop has got: `n` replies have been taken. */
    ghost predicate At(replies: seq<ReadReply>, n: nat)
      requires n <= |replies|
      reads this, inDb, out, out.db
    {
      && Valid() && Untouched() && seen == cfg.Input(replies[..n]) && cfg.ReadsSucceed(replies[..n])
      && inFull + inPart == cfg.Blocks(replies[..n])
      && (cfg.direct ==> cfg.WritesDirect(replies[..n], out.answers) == Going(0, out.script))
      && (cfg.mode == Def && !cfg.direct ==> out.last == cfg.LastBlock(replies[..n]))
    }

    /** One turn of the loop of `dd_in`. */
    method CopyBlock(replies: seq<ReadReply>, n: nat) returns (ok: bool)
      requires n < |replies| && At(replies, n)
      requires replies[n].Data? ==> 0 < |replies[n].bytes| <= cfg.ibs
      modifies this, inDb, out, out.db
      ensures ok ==> At(replies, n + 1)
      ensures !ok ==> cfg.Fatal(replies[n]) || cfg.Writes(replies[..n + 1], out.answers) == Stuck
    {
      hide cfg.Input, cfg.Blocks, cfg.BlockOf, cfg.LastBlock, cfg.WritesDirect, cfg.Emitted, Drain, Forced, Valid;
      InputNext(cfg, replies, n);
      DirectNext(cfg, replies, n, out.answers);
      assert replies[..n + 1] == replies[..n] + [replies[n]];
      IsConfigured();
      if cfg.direct {
        ok := CopyDirect(replies[n]);
      } else {
        ok := CopyConverted(replies[n]);
      }
    }

    lemma IsConfigured()
      requires Valid()
      ensures cfg.Valid()
    {
    }

    /** What `dd_close` needs to know of the first byte of the output buffer. */
    ghost predicate First(taken: seq<ReadReply>)
      requires cfg.Valid()
      reads out, out.db
    {
      cfg.Left(cfg.Input(taken)) == [] && !cfg.direct && cfg.Emitted(cfg.Input(taken)) != [] ==>
        out.db.Length > 0 && out.db[0] == cfg.FirstByte(taken)
    }

    /** The buffer holds the end of what has been put out. */
    lemma Buffered()
      requires Valid() && !cfg.direct
      ensures out.db[..out.dbcnt] == out.stream[Whole(cfg.obs, |out.stream|)..]
      ensures out.Image() == out.start + out.stream[..Whole(cfg.obs, |out.stream|)]
    {
      hide Whole, Drain, Materialised;
      EndOf(out.Image(), out.db[..out.dbcnt], out.start, out.stream, Whole(cfg.obs, |out.stream|));
    }

    /** When nothing is left to be written, neither buffer holds anything. */
    lemma NothingHeld()
      requires Valid() && !cfg.direct && cfg.Left(seen) == []
      ensures out.dbcnt == 0 && (cfg.mode != Def ==> inCnt == 0)
    {
      hide Whole, Drain, Lines, Records, Truncating;
      Buffered();
      match cfg.mode
      case Def =>
      case Block => assert cfg.Closing(seen) == [];
      case Unblock => assert cfg.Closing(seen) == [];
    }

    /** When count= ends the copying the buffer is as it was left. */
    lemma FirstAtLimit(replies: seq<ReadReply>, n: nat)
      requires n <= |replies| && At(replies, n) && (cfg.Full(replies[..n]) || !cfg.sync || cfg.mode != Def)
      ensures First(replies[..n])
    {
      hide Whole, Drain, Lines, Records, cfg.Input, cfg.Blocks, cfg.BlockOf, cfg.LastBlock, cfg.Emitted, RTrim;
      if cfg.Left(seen) == [] && !cfg.direct {
        NothingHeld();
      }
    }

    /** The read that meets the end of the file. */
    method EndOfFile(replies: seq<ReadReply>)
      requires At(replies, |replies|) && !cfg.Full(replies)
      modifies inDb
      ensures Valid() && First(replies)
    {
      hide Whole, Drain, Lines, Records, cfg.Input, cfg.Blocks, cfg.BlockOf, cfg.LastBlock, cfg.Emitted, cfg.Kept;
      assert replies[..|replies|] == replies;
      ghost var kept, held, all0 := inDb[..inCnt], out.db[..out.dbcnt], out.db[..];
      if !cfg.sync || cfg.mode != Def {
        FirstAtLimit(replies, |replies|);
      }
      if cfg.Left(seen) == [] && !cfg.direct {
        NothingHeld();
      }
      ClearNew();
      assert inDb[..inCnt] == kept && out.db[..out.dbcnt] == held;
      if cfg.mode != Def || !cfg.sync {
        assert out.db[..] == all0;
        assert out.db[0] == all0[0];
      } else if inCnt == 0 {
        assert inDb[inDbp..inDbp + cfg.ibs][0] == 0;
      }
    }

    /** `dd_in`: copy blocks until the input ends or count= is reached. */
    method CopyAll(replies: seq<ReadReply>) returns (ok: bool, used: nat)
      requires At(replies, 0) && cfg.Valid()
      requires forall r <- replies :: r.Data? ==> 0 < |r.bytes| <= cfg.ibs
      modifies this, inDb, out, out.db
      ensures ok <==>
        var taken := replies[..cfg.Taken(replies, 0)];
        cfg.ReadsSucceed(taken) && cfg.Writes(taken, out.answers).Going?
      ensures ok ==> used == cfg.Taken(replies, 0) && Valid() && seen == cfg.Input(replies[..used])
      ensures ok ==> cfg.Writes(replies[..used], out.answers) == Going(out.pending, out.script)
      ensures ok ==> First(replies[..used])
    {
      hide cfg.Input, cfg.Blocks, cfg.BlockOf, cfg.LastBlock, cfg.WritesDirect, cfg.Emitted, Drain, Valid, First;
      used := 0;
      ghost var k := cfg.Taken(replies, 0);
      while true
        invariant used <= |replies| && At(replies, used) && cfg.Taken(replies, used) == k
        decreases |replies| - used
      {
        if cfg.limit.Some? && inFull + inPart >= cfg.limit.value {
          FirstAtLimit(replies, used);
          NotStuck(replies, used);
          return true, used;
        }
        if used == |replies| {
          assert replies[..used] == replies;
          NotStuck(replies, used);
          EndOfFile(replies);
          return true, used;
        }
        assert replies[used] in replies;
        ok := CopyBlock(replies, used);
        if !ok {
          TakenFails(cfg, replies, used, k, out.answers);
          return;
        }
        used := used + 1;
      }
    }

    lemma NotStuck(replies: seq<ReadReply>, n: nat)
      requires n <= |replies| && At(replies, n)
      ensures cfg.Valid() && cfg.Writes(replies[..n], out.answers) == Going(out.pending, out.script)
      ensures cfg.ReadsSucceed(replies[..n])
    {
      hide cfg.Input, cfg.Blocks, cfg.BlockOf, cfg.LastBlock, cfg.WritesDirect, cfg.Emitted, Drain;
    }

    // ---------------------------------------------------------------- the end

    /** Write what is left. */
    method FinalFlush() returns (ok: bool)
      requires out.Valid()
      modifies out
      ensures ok <==> Forced(out.Dev(), out.db[..old(out.dbcnt)], old(out.pending), old(out.script)).Going?
      ensures ok ==>
        var written := HoleWritten(old(out.pending), old(out.script));
        out.file == ForcedFile(old(out.file), old(out.pending), written, out.db[0], out.db[..old(out.dbcnt)])
    {
      hide Put;
      ok := true;
      if out.dbcnt > 0 || out.pending > 0 {
        var hole;
        ok, hole := out.FlushForced();
      } else {
        assert out.db[..0] == [];
      }
    }

    /** The closing function: what is left is then in the output buffer. */
    method FinishConversion()
      requires Valid()
      modifies out`dbp, out`dbcnt, out.db
      ensures out.dbcnt <= out.db.Length && out.db[..out.dbcnt] == cfg.Left(seen)
      ensures cfg.Left(seen) == [] ==> out.db[0] == old(out.db[0])
    {
      hide Drain, Whole, cfg.Emitted, Truncating;
      if !cfg.direct {
        Buffered();
      }
      ghost var held, left := out.db[..out.dbcnt], cfg.Left(seen);
      assert left == held + cfg.Closing(seen);
      match cfg.mode {
        case Def => assert cfg.Closing(seen) == [] && held + [] == held;
        case Block => CloseBlock();
        case Unblock => CloseUnblock();
      }
    }

    /** `dd_close`: finish the conversion and write what is left. */
    method Close(ghost taken: seq<ReadReply>) returns (ok: bool)
      requires Valid() && First(taken) && seen == cfg.Input(taken)
      requires cfg.Writes(taken, out.answers) == Going(out.pending, out.script)
      modifies out, out.db
      ensures ok <==> Forced(cfg.Dev(), cfg.Left(seen), old(out.pending), old(out.script)).Going?
      ensures ok ==> out.file == cfg.Final(out.start, taken, out.answers)
    {
      hide Drain, Whole, cfg.Emitted, cfg.Input, cfg.Closing, cfg.Writes, cfg.Left, Forced;
      BaseIs(taken);
      ghost var left := cfg.Left(seen);
      FinishConversion();
      assert left != [] ==> out.db[0] == out.db[..out.dbcnt][0];
      FirstLeft(cfg, taken);
      ok := FinalFlush();
    }

    /** The file so far is what has left the output buffer, but for the hole at its end. */
    lemma BaseIs(taken: seq<ReadReply>)
      requires Valid() && seen == cfg.Input(taken)
      requires cfg.Writes(taken, out.answers) == Going(out.pending, out.script)
      ensures var gone := cfg.Gone(seen);
        && out.pending <= |gone| && out.file == out.start + gone[..|gone| - out.pending]
      ensures out.pending > 0 ==> cfg.Emitted(seen) != [] && !cfg.direct
    {
      hide Drain, Whole, Lines, Records, cfg.Input, cfg.Writes;
      var gone, n := cfg.Gone(seen), out.pending;
      HoleFits(cfg, taken, out.answers);
      assert Zeros(0) == [];
      if cfg.direct {
        assert gone[..|gone|] == gone;
      } else {
        Buffered();
        assert out.file + Zeros(n) == out.start + gone;
        var kept := gone[..|gone| - n];
        assert gone == kept + Zeros(n);
        SameFront(out.file, out.start + kept, Zeros(n), out.start + gone);
      }
    }
  }

  lemma FirstLeft(cfg: Config, taken: seq<ReadReply>)
    requires cfg.Valid()
    ensures var left := cfg.Left(cfg.Input(taken)); left != [] ==> cfg.FirstByte(taken) == left[0]
  {
    hide cfg.Input, cfg.Left, cfg.Emitted;
  }

  lemma SameFront(a: seq<byte>, b: seq<byte>, z: seq<byte>, all: seq<byte>)
    requires a + z == all == b + z
    ensures a == b
  {
    assert (a + z)[..|a|] == a && (b + z)[..|b|] == b;
  }

  /** The bytes `piece` put behind the buffered ones. */
  lemma PutBehind(img: seq<byte>, held: seq<byte>, piece: seq<byte>, start: seq<byte>, stream: seq<byte>)
    requires img + held == start + stream
    ensures img + (held + piece) == start + (stream + piece)
  {
    Assoc(img, held, piece);
    Assoc(start, stream, piece);
  }

  lemma EndOf(img: seq<byte>, held: seq<byte>, start: seq<byte>, stream: seq<byte>, k: nat)
    requires img + held == start + stream && k <= |stream| && |held| == |stream| - k
    ensures held == stream[k..] && img == start + stream[..k]
  {
    assert (img + held)[|img|..] == held && (start + stream)[|start| + k..] == stream[k..];
    assert (img + held)[..|img|] == img && (start + stream)[..|start| + k] == start + stream[..k];
  }

  /** When the loop stops early, all the replies it would take have this failure among them. */
  lemma TakenFails(cfg: Config, replies: seq<ReadReply>, n: nat, k: nat, script: seq<Reply>)
    requires cfg.Valid() && n < |replies| && !cfg.Full(replies[..n]) && k == cfg.Taken(replies, n)
    requires cfg.Fatal(replies[n]) || cfg.Writes(replies[..n + 1], script) == Stuck
    ensures !(cfg.ReadsSucceed(replies[..k]) && cfg.Writes(replies[..k], script).Going?)
  {
    hide cfg.Writes, cfg.Full;
    assert k == cfg.Taken(replies, n + 1);
    if cfg.Fatal(replies[n]) {
      assert replies[..k][n] in replies[..k];
    } else {
      StuckEarly(cfg, replies, n + 1, k, script);
    }
  }

  /** What a read leaves in a buffer that conv=sync has cleared from `dbp` on. */
  lemma ReadInto(cfg: Config, reply: ReadReply, was: seq<byte>, now: seq<byte>, dbp: nat)
    requires cfg.Valid() && reply.Data? && |reply.bytes| <= cfg.ibs && dbp + cfg.ibs <= |was| == |now|
    requires cfg.sync ==> was[dbp..dbp + cfg.ibs] == Copies(cfg.PadByte(), cfg.ibs)
    requires forall j :: 0 <= j < |now| ==>
      now[j] == if dbp <= j < dbp + |reply.bytes| then reply.bytes[j - dbp] else was[j]
    ensures var raw := cfg.RawBlockOf(reply);
      |raw| <= cfg.ibs && now[dbp..dbp + |raw|] == raw && now[..dbp] == was[..dbp]
  {
    var raw, n, pad := cfg.RawBlockOf(reply), |reply.bytes|, cfg.PadByte();
    assert raw[..n] == reply.bytes;
    if cfg.sync {
      forall j | dbp <= j < dbp + cfg.ibs ensures was[j] == pad {
        assert was[dbp..dbp + cfg.ibs][j - dbp] == pad;
      }
    }
    forall j | dbp <= j < dbp + |raw| ensures now[j] == raw[j - dbp] {
      if j < dbp + n {
        assert raw[j - dbp] == raw[..n][j - dbp];
      }
    }
  }

  lemma SwabPair(d: seq<byte>, i: nat)
    requires i < |d| && i % 2 == 0
    ensures if i + 1 < |d| then SwabAt(d, i) == d[i + 1] && SwabAt(d, i + 1) == d[i] else SwabAt(d, i) == d[i]
  {
  }

  lemma TranslatedBehind(tab: Table, was: seq<byte>, now: seq<byte>, held: seq<byte>, d: seq<byte>)
    requires ValidTable(tab) && |now| == |was| == |held| + |d| && was[|held|..] == d && was[..|held|] == held
    requires forall j :: 0 <= j < |held| ==> now[j] == was[j]
    requires forall j :: |held| <= j < |was| ==> now[j] == Tr(tab, was[j])
    ensures now == held + TrAll(tab, d)
  {
    forall j | 0 <= j < |now| ensures now[j] == (held + TrAll(tab, d))[j] {
      if j >= |held| {
        assert was[j] == d[j - |held|];
      }
    }
  }

  lemma RecordBehind(now: seq<byte>, held: seq<byte>, rec: seq<byte>, kept: seq<byte>, pad: byte)
    requires |kept| <= |rec| && rec == kept + Copies(pad, |rec| - |kept|) && |now| == |held| + |rec|
    requires forall i :: 0 <= i < |held| ==> now[i] == held[i]
    requires forall i :: |held| <= i < |held| + |kept| ==> now[i] == kept[i - |held|]
    requires forall i :: |held| + |kept| <= i < |now| ==> now[i] == pad
    ensures now == held + rec
  {
    forall i | |held| <= i < |now| ensures now[i] == rec[i - |held|] {
    }
  }

  /** That is conv=block, conv=unblock, or the input itself translated; under conv=block a last record
      without a newline must read the same translated and untranslated. */
  lemma ConvertedIs(cfg: Config, input: seq<byte>)
    requires cfg.Valid()
    ensures cfg.mode == Unblock ==> cfg.Converted(input) == UnblockSpec(cfg.cbsz, input)
    ensures cfg.mode == Def ==> cfg.Converted(input) == if cfg.direct then input else TrAll(cfg.table, input)
    ensures cfg.mode == Block ==>
      (cfg.Converted(input) == BlockSpec(cfg.table, cfg.cbsz, input)
       <==> TrAll(cfg.table, Tail(cfg.cbsz, input)) == Tail(cfg.cbsz, input))
  {
    match cfg.mode
    case Def =>
    case Block => BlockCloseExact(cfg.table, cfg.cbsz, input);
    case Unblock => UnblockSpecSplits(cfg.cbsz, input);
  }

  /** bs= writes the blocks as they are read, even under conv=ascii or conv=ebcdic: that is the translated
      input exactly when the table changes none of its bytes, which fails for the input "a" as soon as the table
      changes "a". */
  lemma BsIsNotTranslated(cfg: Config, input: seq<byte>)
    requires cfg.Valid() && cfg.direct
    ensures cfg.Converted(input) == TrAll(cfg.table, input) <==>
      forall i :: 0 <= i < |input| ==> Tr(cfg.table, input[i]) == input[i]
    ensures cfg.table.Table? && cfg.table.t[97] != 97 ==> cfg.Converted([97]) != TrAll(cfg.table, [97])
  {
    var all := TrAll(cfg.table, input);
    if cfg.Converted(input) == all {
      forall i | 0 <= i < |input| ensures Tr(cfg.table, input[i]) == input[i] {
        assert all[i] == input[i];
      }
    }
    if cfg.table.Table? {
      assert TrAll(cfg.table, [97])[0] == cfg.table.t[97];
    }
  }

  /** A whole run: it comes to its end exactly when the reads and the writes allow it, and leaves the
      file that the operands, the input and the answers to the writes determine. */
  method Run(cfg: Config, file: seq<byte>, replies: seq<ReadReply>, writes: seq<Reply>)
    returns (ok: bool, used: nat, result: seq<byte>)
    requires cfg.Valid()
    requires forall r <- replies :: r.Data? ==> 0 < |r.bytes| <= cfg.ibs
    ensures ok <==> cfg.Succeeds(replies[..cfg.Taken(replies, 0)], writes)
    ensures ok ==> used == cfg.Taken(replies, 0) && result == cfg.Final(file, replies[..used], writes)
  {
    hide cfg.Writes, cfg.Final, cfg.Left, Forced;
    var c := new Copier(cfg, file, writes);
    result := [];
    NoInput(cfg);
    assert replies[..0] == [];
    ok, used := c.CopyAll(replies);
    if ok {
      ok := c.Close(replies[..used]);
      result := c.out.file;
    }
  }
}
