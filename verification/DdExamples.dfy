/** dd in numbers: what fills up short blocks, what counts against count=, and whole runs. */
module DdExamples {
  import opened Common
  import opened DdOutput
  import opened DdSpec
  import opened DdRun

  // ---------------------------------------------------------------- input blocks

  /** conv=sync fills a short block up to the input block size, with blanks under record conversion and with
      NULs otherwise; without it a block is what was read. */
  lemma ShortBlocks(cfg: Config, bytes: seq<byte>)
    requires !cfg.swab && 0 < |bytes| <= cfg.ibs
    ensures !cfg.sync ==> cfg.BlockOf(Data(bytes)) == bytes
    ensures cfg.sync ==>
      var block := cfg.BlockOf(Data(bytes));
      && |block| == cfg.ibs && block[..|bytes|] == bytes
      && forall i :: |bytes| <= i < cfg.ibs ==> block[i] == if cfg.mode == Block || cfg.mode == Unblock then 32 else 0
  {
  }

  /** A block that cannot be read is left out, or consists of filling under conv=sync. */
  lemma UnreadBlocks(cfg: Config)
    requires !cfg.swab
    ensures !cfg.sync ==> cfg.BlockOf(ReadError) == []
    ensures cfg.sync ==>
      var block := cfg.BlockOf(ReadError);
      |block| == cfg.ibs && forall i :: 0 <= i < cfg.ibs ==> block[i] == if cfg.mode == Def then 0 else 32
  {
  }

  /** conv=swab changes the places of each two bytes, after filling up. */
  lemma SwabbedBlocks(cfg: Config, reply: ReadReply)
    requires cfg.swab
    ensures var raw, block := cfg.(swab := false).BlockOf(reply), cfg.BlockOf(reply);
      && |block| == |raw|
      && (forall i :: 0 <= 2 * i + 1 < |raw| ==> block[2 * i] == raw[2 * i + 1] && block[2 * i + 1] == raw[2 * i])
      && (|raw| % 2 == 1 ==> block[|raw| - 1] == raw[|raw| - 1])
  {
    var raw, block := cfg.(swab := false).BlockOf(reply), cfg.BlockOf(reply);
    assert raw == cfg.RawBlockOf(reply) && block == Swab(raw);
    forall i | 0 <= 2 * i + 1 < |raw| ensures block[2 * i] == raw[2 * i + 1] && block[2 * i + 1] == raw[2 * i] {
      assert block[2 * i] == SwabAt(raw, 2 * i) && block[2 * i + 1] == SwabAt(raw, 2 * i + 1);
      EvenOdd(i);
    }
  }

  lemma EvenOdd(i: int)
    ensures 2 * i % 2 == 0 && (2 * i + 1) % 2 == 1
  {
  }

  /** The input is the blocks one behind the other. */
  lemma InputOfTwo(cfg: Config, a: ReadReply, b: ReadReply)
    ensures cfg.Input([]) == [] && cfg.Input([a]) == cfg.BlockOf(a)
    ensures cfg.Input([a, b]) == cfg.BlockOf(a) + cfg.BlockOf(b)
  {
    hide cfg.BlockOf;
    assert [a][..0] == [] && [a, b][..1] == [a];
  }

  /** Against count= go the blocks that were read, and under conv=sync also those that could not be. */
  lemma CountOfTwo(cfg: Config, a: ReadReply, b: ReadReply)
    ensures cfg.Blocks([]) == 0 && cfg.Blocks([a]) == if a == ReadError && !cfg.sync then 0 else 1
    ensures cfg.Blocks([a, b]) ==
      (if a == ReadError && !cfg.sync then 0 else 1) + (if b == ReadError && !cfg.sync then 0 else 1)
  {
    assert [a][..0] == [] && [a, b][..1] == [a];
  }

  /** count=0 takes nothing, count=1 the first block, whatever errors came before it. */
  lemma CountTakes(cfg: Config, a: seq<byte>, b: seq<byte>)
    ensures cfg.limit == Some(0) ==> cfg.Taken([Data(a), Data(b)], 0) == 0
    ensures cfg.limit == Some(1) ==> cfg.Taken([Data(a), Data(b)], 0) == 1
    ensures cfg.limit == Some(2) ==> cfg.Taken([Data(a), Data(b)], 0) == 2
    ensures cfg.limit == None ==> cfg.Taken([Data(a), Data(b)], 0) == 2
    ensures cfg.limit == Some(1) ==> cfg.Taken([ReadError, Data(b)], 0) == if cfg.sync then 1 else 2
  {
    hide cfg.Blocks, cfg.BlockOf;
    TakenOfTwo(cfg, Data(a), Data(b));
    TakenOfTwo(cfg, ReadError, Data(b));
  }

  lemma TakenOfTwo(cfg: Config, a: ReadReply, b: ReadReply)
    ensures cfg.Taken([a, b], 0) == if cfg.Full([]) then 0 else if cfg.Full([a]) then 1 else 2
    ensures forall n: nat :: n <= 2 ==>
      (cfg.Full([a, b][..n]) <==> cfg.limit.Some? && cfg.Blocks([a, b][..n]) >= cfg.limit.value)
    ensures cfg.Blocks([]) == 0 && cfg.Blocks([a]) == if a == ReadError && !cfg.sync then 0 else 1
    ensures cfg.Full([]) <==> cfg.limit == Some(0)
    ensures cfg.Full([a]) <==> cfg.limit.Some? && (if a == ReadError && !cfg.sync then 0 else 1) >= cfg.limit.value
  {
    CountOfTwo(cfg, a, b);
    var two := [a, b];
    assert two[..0] == [] && two[..1] == [a] && two[..2] == two;
    assert cfg.Taken(two, 2) == 2;
    assert cfg.Taken(two, 1) == if cfg.Full([a]) then 1 else 2;
  }

  // ---------------------------------------------------------------- writes

  /** A write that fails or writes nothing stops the output; one that is interrupted is done again, and one that
      is cut short is continued, but not on a tape. */
  lemma OneWrite(dev: Device, data: seq<byte>, rest: seq<Reply>)
    requires |data| == 4 && data[0] != 0 && data[2] != 0
    ensures Put(dev, false, data, 0, [Failed] + rest) == Stuck
    ensures Put(dev, false, data, 0, [Short(0)] + rest) == Stuck
    ensures Put(dev, false, data, 0, [Full] + rest) == Going(0, rest)
    ensures Put(dev, false, data, 0, [Interrupted, Full] + rest) == if dev.tape then Stuck else Going(0, rest)
    ensures Put(dev, false, data, 0, [Short(2), Full] + rest) == if dev.tape then Stuck else Going(0, rest)
    ensures Put(dev, false, data, 0, [Short(2), Failed] + rest) == Stuck
    ensures Put(dev, false, data, 0, []) == Going(0, [])
  {
    assert ([Interrupted, Full] + rest)[1..] == [Full] + rest && ([Full] + rest)[1..] == rest;
    assert ([Short(2), Full] + rest)[1..] == [Full] + rest;
    assert ([Short(2), Failed] + rest)[1..] == [Failed] + rest;
    assert data[2..][0] == data[2];
  }

  /** Zeros are skipped under conv=sparse, also behind a write that was cut short; a hole before other bytes is
      seeked over, if one can seek. */
  lemma OneHole(dev: Device, n: nat, rest: seq<Reply>)
    requires dev.sparse && !dev.tape
    ensures Put(dev, false, [0, 0], n, rest) == Going(n + 2, rest)
    ensures Put(dev, false, [7, 0], 0, [Short(1)] + rest) == Going(1, rest)
    ensures Put(dev, false, [7, 0], 5, [Full] + rest) == if dev.seekable then Going(0, rest) else Stuck
    ensures Put(dev, true, [0, 0], 0, [Full] + rest) == Going(0, rest)
  {
    assert ([Short(1)] + rest)[1..] == rest && ([Full] + rest)[1..] == rest;
    var seven: seq<byte> := [7, 0];
    assert seven[0] == 7 && seven[1..] == [0];
  }

  /** What a forced call leaves of a hole of three bytes behind one byte. */
  lemma ForcedFiles()
    ensures ForcedFile([9], 3, true, 0, [5, 6]) == [9, 0, 0, 0, 5, 6]
    ensures ForcedFile([9], 3, true, 5, [5, 6]) == [9, 0, 0, 5, 5, 6]
    ensures ForcedFile([9], 3, false, 5, [5, 6]) == [9, 0, 0, 5, 6]
    ensures ForcedFile([9], 3, true, 7, []) == [9, 0, 0, 7]
    ensures ForcedFile([9], 3, false, 7, []) == [9]
    ensures ForcedFile([9], 0, false, 7, [5]) == [9, 5]
  {
  }

  // ---------------------------------------------------------------- whole runs

  /** No special operands. */
  function Copying(mode: Mode, ibs: nat, obs: nat, cbsz: nat, sync: bool, sparse: bool): Config {
    Config(mode, NoTable, ibs, obs, cbsz, false, sync, false, false, sparse, false, true, None)
  }

  /** Which answers are harmless, which write the whole block, and which write the last byte of a hole. */
  lemma Answers(dev: Device, n: nat)
    ensures Harmless(dev, [Full]) <==> AllFull(dev, [Full])
    ensures AllFull(dev, [Full]) <==> dev.sparse ==> dev.seekable
    ensures Harmless(dev, [Short(n)]) <==> Harmless(dev, [Full]) && !dev.tape && n > 0
    ensures Harmless(dev, [Interrupted]) <==> Harmless(dev, [Full]) && !dev.tape
    ensures !Harmless(dev, [Failed])
    ensures !AllFull(dev, [Short(n)]) && !AllFull(dev, [Interrupted]) && !AllFull(dev, [Failed])
    ensures HoleWritten(1, []) && HoleWritten(1, [Full]) && !HoleWritten(0, [Full]) && !HoleWritten(0, [Short(1)])
    ensures (HoleWritten(1, [Short(n)]) <==> n > 0) && !HoleWritten(1, [Interrupted]) && !HoleWritten(1, [Failed])
  {
    assert [Short(n)][0] == Short(n) && [Interrupted][0] == Interrupted && [Failed][0] == Failed;
  }

  /** The input buffer: room for a block behind a nearly full output block, or for a block or a record behind a
      nearly full record. */
  lemma InputBuffers()
    ensures Copying(Def, 8, 4, 0, false, false).Valid() && Copying(Def, 8, 4, 0, false, false).InSize() == 11
    ensures Copying(Block, 8, 4, 3, false, false).Valid() && Copying(Block, 8, 4, 3, false, false).InSize() == 11
    ensures Copying(Unblock, 2, 4, 3, false, false).Valid() && Copying(Unblock, 2, 4, 3, false, false).InSize() == 6
  {
  }

  /** conv=block,sync cbs=4 ibs=6 on "ab" and a newline: the three blanks that fill up the block are an
      unfinished line of their own. */
  lemma BlockedRun(cfg: Config, replies: seq<ReadReply>)
    requires cfg == Copying(Block, 6, 8, 4, true, false) && replies == [Data([97, 98, 10])]
    ensures cfg.Valid() && cfg.Input(replies) == [97, 98, 10, 32, 32, 32]
    ensures cfg.Converted(cfg.Input(replies)) == [97, 98, 32, 32, 32, 32, 32, 32]
    ensures cfg.Succeeds(replies, []) && cfg.Final([7], replies, []) == [7, 97, 98, 32, 32, 32, 32, 32, 32]
  {
    hide Records, Lines, Drain, Put, cfg.Writes, cfg.Final, cfg.Succeeds, LineStart;
    OneBlock(cfg, replies, [97, 98, 10, 32, 32, 32]);
    LinesOfSix(cfg.Input(replies));
    RunOf(cfg, replies);
    assert [7] + [97, 98, 32, 32, 32, 32, 32, 32] == [7, 97, 98, 32, 32, 32, 32, 32, 32];
  }

  lemma OneBlock(cfg: Config, replies: seq<ReadReply>, block: seq<byte>)
    requires |replies| == 1 && cfg.BlockOf(replies[0]) == block
    ensures cfg.Input(replies) == block
  {
    InputOfTwo(cfg, replies[0], replies[0]);
    assert replies == [replies[0]];
  }

  lemma LinesOfSix(s: seq<byte>)
    requires s == [97, 98, 10, 32, 32, 32]
    ensures Records(NoTable, 4, s, 6) == [97, 98, 32, 32]
    ensures ClosingRecord(NoTable, 4, s) == [32, 32, 32, 32]
  {
    hide Records, LineStart;
    LineStarts(s);
    FinishedLine(NoTable, 4, s, 0, 2, 2);
    UnfinishedLine(NoTable, 4, s, 3, 6);
    assert Pad(NoTable, 4, s[0..2]) == [97, 98, 32, 32];
    assert Tail(4, s) == [32, 32, 32];
  }

  lemma LineStarts(s: seq<byte>)
    ensures LineStart(s, 0) == 0 && Records(NoTable, 4, s, 0) == []
  {
  }

  /** Without errors and without conv=sparse a run leaves the converted input. */
  lemma RunOf(cfg: Config, replies: seq<ReadReply>)
    requires cfg.Valid() && !cfg.sparse && |replies| == 1 && replies[0].Data?
    ensures cfg.Succeeds(replies, []) && cfg.Writes(replies, []).Going?
    ensures forall file :: cfg.Final(file, replies, []) == file + cfg.Converted(cfg.Input(replies))
  {
    hide cfg.Input, cfg.Final, cfg.Converted, cfg.Left, Drain, Forced;
    HarmlessSucceeds(cfg, replies, []);
    forall file ensures cfg.Final(file, replies, []) == file + cfg.Converted(cfg.Input(replies)) {
      DenseIsExact(cfg, file, replies, []);
    }
  }

  /** conv=unblock,sync cbs=4 ibs=6 on "ab": a record of it and two blanks, and a short record of blanks. */
  lemma UnblockedRun(cfg: Config, replies: seq<ReadReply>)
    requires cfg == Copying(Unblock, 6, 8, 4, true, false) && replies == [Data([97, 98])]
    ensures cfg.Valid() && cfg.Input(replies) == [97, 98, 32, 32, 32, 32]
    ensures cfg.Converted(cfg.Input(replies)) == [97, 98, 10, 10]
    ensures cfg.Succeeds(replies, []) && cfg.Final([7], replies, []) == [7, 97, 98, 10, 10]
  {
    hide Records, Lines, Drain, Put, cfg.Writes, cfg.Final, cfg.Succeeds, RTrim;
    OneBlock(cfg, replies, [97, 98, 32, 32, 32, 32]);
    RecordsOfSix(cfg.Input(replies));
    RunOf(cfg, replies);
    assert [7] + [97, 98, 10, 10] == [7, 97, 98, 10, 10];
  }

  lemma RecordsOfSix(s: seq<byte>)
    requires s == [97, 98, 32, 32, 32, 32]
    ensures Whole(4, 6) == 4 && Lines(4, s, 4) == [97, 98, 10] && ClosingLine(4, s) == [10]
  {
    hide RTrim;
    WholeStep(4, 6);
    WholeSmall(4, 2);
    var first, second := s[0..4], s[4..];
    Trimmed(first, 2);
    Trimmed(second, 0);
    assert Lines(4, s, 0) == [] && [97, 98] + [10] == [97, 98, 10];
    assert Rest(4, s) == second;
  }

  lemma Trimmed(s: seq<byte>, n: nat)
    requires n <= |s| && (n > 0 ==> s[n - 1] != 32) && forall i :: n <= i < |s| ==> s[i] == 32
    ensures RTrim(s) == s[..n]
  {
    TextEndIs(s, n);
  }

  /** conv=block cbs=3 on a line of five and a line of one: the first one is cut. */
  lemma CutLines(s: seq<byte>)
    requires s == [97, 98, 99, 100, 101, 10, 120, 10]
    ensures BlockSpec(NoTable, 3, s) == [97, 98, 99, 120, 32, 32]
    ensures Records(NoTable, 3, s, 8) == [97, 98, 99, 120, 32, 32] && ClosingRecord(NoTable, 3, s) == []
  {
    hide Records, LineStart, BlockSpec;
    assert LineStart(s, 0) == 0 && Records(NoTable, 3, s, 0) == [] by {
      FirstStarts(s);
    }
    FinishedLine(NoTable, 3, s, 0, 3, 5);
    FinishedLine(NoTable, 3, s, 6, 1, 7);
    assert Pad(NoTable, 3, s[0..3]) == [97, 98, 99] && Pad(NoTable, 3, s[6..7]) == [120, 32, 32];
    assert Tail(3, s) == [];
    BlockSpecSplits(NoTable, 3, s);
  }

  lemma FirstStarts(s: seq<byte>)
    ensures LineStart(s, 0) == 0 && Records(NoTable, 3, s, 0) == []
  {
  }

  /** conv=sparse obs=4: the byte 'a', three others and four NULs, read at once.  The first output block is
      written and the second one skipped; the last byte of the hole is the one left at the front of the buffer,
      unless conv=sync has cleared it for the read that met the end. */
  lemma StaleByte(cfg: Config, replies: seq<ReadReply>, sync: bool)
    requires cfg == Copying(Def, 8, 4, 0, sync, true) && replies == [Data([97, 1, 1, 1, 0, 0, 0, 0])]
    ensures cfg.Valid() && cfg.Succeeds(replies, [])
    ensures cfg.Final([], replies, []) == if sync then [97, 1, 1, 1, 0, 0, 0, 0] else [97, 1, 1, 1, 0, 0, 0, 97]
    ensures var limited := cfg.(limit := Some(1));
      limited.Succeeds(replies, []) && limited.Final([], replies, []) == [97, 1, 1, 1, 0, 0, 0, 97]
  {
    var limited := cfg.(limit := Some(1));
    StaleFirst(cfg, replies);
    StaleFirst(limited, replies);
    assert cfg.Full(replies) == false && limited.Full(replies) by {
      assert replies == [replies[0]];
      CountOfTwo(limited, replies[0], replies[0]);
    }
  }

  lemma StaleFirst(cfg: Config, replies: seq<ReadReply>)
    requires cfg.(sync := false, limit := None) == Copying(Def, 8, 4, 0, false, true)
    requires replies == [Data([97, 1, 1, 1, 0, 0, 0, 0])]
    ensures cfg.Valid() && cfg.Succeeds(replies, []) && cfg.Writes(replies, []) == Going(4, [])
    ensures cfg.Final([], replies, []) == [97, 1, 1, 1, 0, 0, 0, if cfg.sync && !cfg.Full(replies) then 0 else 97]
  {
    hide cfg.Full, Drain, Put, Whole;
    var s: seq<byte> := [97, 1, 1, 1, 0, 0, 0, 0];
    assert cfg.BlockOf(replies[0]) == s;
    OneBlock(cfg, replies, s);
    EightBytes(cfg.Dev(), s);
    assert cfg.Emitted(s) == s && cfg.Left(s) == [] && cfg.Gone(s) == s;
    assert cfg.LastBlock(replies) == 8;
    assert cfg.FirstByte(replies) == if cfg.sync && !cfg.Full(replies) then 0 else 97;
    assert [] + s[..4] == [97, 1, 1, 1];
  }

  lemma EightBytes(dev: Device, s: seq<byte>)
    requires s == [97, 1, 1, 1, 0, 0, 0, 0] && dev == Device(4, true, false, true)
    ensures Drain(dev, s, Going(0, [])) == Going(4, []) && Whole(4, 8) == 8 && Whole(4, 0) == 0
  {
    hide Drain, Whole, Put;
    WholeStep(4, 8);
    WholeStep(4, 4);
    WholeSmall(4, 0);
    DrainFirst(dev, s, Going(0, []));
    assert Put(dev, false, s[..4], 0, []) == Going(0, []) by {
      OneWrite4(dev, s[..4]);
    }
    DrainFirst(dev, s[4..], Going(0, []));
    HoleGrows(dev, s[4..][..4], 0, []);
    Small(dev, s[4..][4..], Going(4, []));
  }

  lemma OneWrite4(dev: Device, data: seq<byte>)
    requires |data| == 4 && data[0] != 0
    ensures Put(dev, false, data, 0, []) == Going(0, [])
  {
  }

  /** A run fails when a read does, unless conv=noerror is given, and when a write does. */
  lemma FailedRuns(cfg: Config, bytes: seq<byte>, script: seq<Reply>)
    requires cfg.Valid() && cfg.mode == Def && !cfg.direct && !cfg.swab && !cfg.sparse && cfg.table == NoTable
    requires 0 < |bytes| <= cfg.ibs
    ensures !cfg.noerror ==> !cfg.Succeeds([ReadError], script)
    ensures cfg.noerror && !cfg.sync ==> cfg.Succeeds([ReadError], script)
    ensures !cfg.Succeeds([Data(bytes)], [Failed])
  {
    hide cfg.Writes, cfg.Left;
    if !cfg.noerror {
      assert ReadError in [ReadError];
    } else if !cfg.sync {
      NothingRead(cfg, script);
    }
    FailingWrite(cfg, [Data(bytes)]);
  }

  lemma NothingRead(cfg: Config, script: seq<Reply>)
    requires cfg.Valid() && cfg.mode == Def && !cfg.direct && !cfg.swab && !cfg.sync && cfg.table == NoTable
    ensures cfg.Writes([ReadError], script) == Going(0, script) && cfg.Left(cfg.Input([ReadError])) == []
  {
    hide Put;
    InputOfTwo(cfg, ReadError, ReadError);
    assert cfg.BlockOf(ReadError) == [];
  }

  lemma FailingWrite(cfg: Config, replies: seq<ReadReply>)
    requires cfg.Valid() && cfg.mode == Def && !cfg.direct && !cfg.sparse && cfg.table == NoTable
    requires cfg.Input(replies) != []
    ensures !cfg.Succeeds(replies, [Failed])
  {
    hide cfg.Input, Put;
    var s := cfg.Input(replies);
    if |s| >= cfg.obs {
      DrainFirst(cfg.Dev(), s, Going(0, [Failed]));
      FailedPut(cfg.Dev(), false, s[..cfg.obs]);
      StuckIs(cfg.Dev(), s[cfg.obs..]);
    } else {
      FailedPut(cfg.Dev(), true, s);
      WholeSmall(cfg.obs, |s|);
      Small(cfg.Dev(), s, Going(0, [Failed]));
      assert s[0..] == s && s + [] == s;
      assert cfg.Left(s) == s && cfg.Writes(replies, [Failed]) == Going(0, [Failed]);
    }
  }

  lemma FailedPut(dev: Device, force: bool, data: seq<byte>)
    requires !dev.sparse
    ensures Put(dev, force, data, 0, [Failed]) == Stuck
  {
  }
}
