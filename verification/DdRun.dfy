/** What a run of dd is to do: its operands, the input it takes, the file it leaves and when it succeeds. */
module DdRun {
  import opened Common
  import opened DdOutput
  import opened DdSpec

  /** What `read` answers: between 1 and ibs bytes, or an error.  End of file is the end of the list. */
  datatype ReadReply = Data(bytes: seq<byte>) | ReadError

  datatype Mode = Def | Block | Unblock

  /** The operands of a run. */
  datatype Config = Config(
    mode: Mode,          // the conversion function
    table: Table,        // ctab
    ibs: nat, obs: nat, cbsz: nat,
    direct: bool,        // C_BS: bs= without block, unblock, lcase, ucase or swab
    sync: bool, noerror: bool, swab: bool, sparse: bool,
    tape: bool,          // is the output a tape?
    seekable: bool,      // can one seek on it?
    limit: Option<nat>)  // count=
  {
    predicate Valid() {
      && ValidTable(table) && ibs > 0 && obs > 0
      && (mode != Def ==> cbsz > 0 && !direct)
      && (mode == Unblock ==> table.NoTable?)
      && (direct ==> !swab)
    }

    function Dev(): Device {
      Device(obs, sparse, tape, seekable)
    }

    /** The byte that fills up short blocks under conv=sync. */
    function PadByte(): byte {
      if mode == Def then 0 else SP
    }

    function RawBlockOf(reply: ReadReply): seq<byte> {
      match reply
      case Data(bytes) => if sync && |bytes| < ibs then bytes + Copies(PadByte(), ibs - |bytes|) else bytes
      case ReadError => if sync then Copies(PadByte(), ibs) else []
    }

    /** The block that one read contributes to the input. */
    function BlockOf(reply: ReadReply): seq<byte> {
      if swab then Swab(RawBlockOf(reply)) else RawBlockOf(reply)
    }

    /** Everything read, after padding and byte swapping. */
    function Input(replies: seq<ReadReply>): seq<byte> {
      if replies == [] then [] else Input(replies[..|replies| - 1]) + BlockOf(replies[|replies| - 1])
    }

    /** The size of the last block that was not empty. */
    function LastBlock(replies: seq<ReadReply>): (n: nat)
      ensures n <= |Input(replies)| && (Input(replies) != [] ==> n > 0)
    {
      if replies == [] then 0
      else
        var d := BlockOf(replies[|replies| - 1]);
        if d == [] then LastBlock(replies[..|replies| - 1]) else |d|
    }

    /** The number of input blocks counted against count=. */
    function Blocks(replies: seq<ReadReply>): nat {
      if replies == [] then 0
      else Blocks(replies[..|replies| - 1]) + if replies[|replies| - 1].Data? || sync then 1 else 0
    }

    /** Has count= been reached? */
    predicate Full(replies: seq<ReadReply>) {
      limit.Some? && Blocks(replies) >= limit.value
    }

    /** How many replies a run takes when it has taken `n`. */
    function Taken(replies: seq<ReadReply>, n: nat): (k: nat)
      requires n <= |replies|
      ensures n <= k <= |replies|
      decreases |replies| - n
    {
      if n == |replies| || Full(replies[..n]) then n else Taken(replies, n + 1)
    }

    /** What has gone to the output side once `s` has been read. */
    function Emitted(s: seq<byte>): seq<byte>
      requires Valid()
    {
      if direct then s
      else match mode
        case Def => TrAll(table, s)
        case Block => Records(table, cbsz, s, |s|)
        case Unblock => Lines(cbsz, s, Whole(cbsz, |s|))
    }

    /** What the closing function adds. */
    function Closing(s: seq<byte>): seq<byte>
      requires Valid()
    {
      match mode
      case Def => []
      case Block => ClosingRecord(table, cbsz, s)
      case Unblock => ClosingLine(cbsz, s)
    }

    /** What a run makes of its input. */
    function Converted(s: seq<byte>): seq<byte>
      requires Valid()
    {
      Emitted(s) + Closing(s)
    }

    /** The bytes kept in the input buffer between reads. */
    function Kept(s: seq<byte>): seq<byte>
      requires Valid()
    {
      match mode
      case Def => []
      case Block => Tail(cbsz, s)
      case Unblock => Rest(cbsz, s)
    }

    /** What has left the output buffer by then: whole output blocks. */
    function Gone(s: seq<byte>): seq<byte>
      requires Valid()
    {
      Emitted(s)[..if direct then |s| else Whole(obs, |Emitted(s)|)]
    }

    /** What is still to be written when the input has ended: less than an output block, and the close. */
    function Left(s: seq<byte>): seq<byte>
      requires Valid()
    {
      if direct then [] else Emitted(s)[Whole(obs, |Emitted(s)|)..] + Closing(s)
    }

    /** The bytes of the input buffer; one buffer serves both sides unless records are converted. */
    function InSize(): nat
      requires Valid()
    {
      if mode == Def then obs + ibs - 1 else (if ibs > cbsz then ibs else cbsz) + cbsz
    }

    /** How much was put out at once, the last time anything was, if `block` was the last block read. */
    function LastOf(s: seq<byte>, block: nat): nat
      requires Valid()
    {
      match mode
      case Def => block
      case Block => cbsz
      case Unblock =>
        var k := Whole(cbsz, |s|);
        if k < cbsz then 1 else |RTrim(s[k - cbsz..k])| + 1
    }

    function LastPiece(replies: seq<ReadReply>): nat
      requires Valid()
    {
      LastOf(Input(replies), LastBlock(replies))
    }

    /** The first byte of the output buffer at the end.  When nothing is left to be written it is the one
        that stood there when a block was last put out, unless conv=sync has cleared it for a read that met
        the end of the file. */
    function FirstByte(replies: seq<ReadReply>): byte
      requires Valid()
    {
      var s := Input(replies);
      var out := Emitted(s);
      if Left(s) != [] then Left(s)[0]
      else if direct || out == [] || (mode == Def && sync && !Full(replies)) then 0
      else LastPieceFits(this, replies); out[Whole(obs, |out| - LastPiece(replies))]
    }

    /** How the writes of the copy loop go. */
    function Writes(replies: seq<ReadReply>, script: seq<Reply>): Progress
      requires Valid()
    {
      if direct then WritesDirect(replies, script) else Drain(Dev(), Emitted(Input(replies)), Going(0, script))
    }

    /** bs= without conversions: each block is one forced call. */
    function WritesDirect(replies: seq<ReadReply>, script: seq<Reply>): Progress {
      if replies == [] then Going(0, script)
      else
        match WritesDirect(replies[..|replies| - 1], script)
        case Stuck => Stuck
        case Going(_, rest) => Forced(Dev(), BlockOf(replies[|replies| - 1]), 0, rest)
    }

    /** Does this read end the run? */
    predicate Fatal(reply: ReadReply) {
      reply.ReadError? && !noerror
    }

    predicate ReadsSucceed(replies: seq<ReadReply>) {
      forall r <- replies :: !Fatal(r)
    }

    /** Does a run that takes these replies come to its end? */
    predicate Succeeds(replies: seq<ReadReply>, script: seq<Reply>)
      requires Valid()
    {
      && ReadsSucceed(replies)
      && var p := Writes(replies, script);
        p.Going? && Forced(Dev(), Left(Input(replies)), p.pending, p.script).Going?
    }

    /** The file it then leaves. */
    function Final(file: seq<byte>, replies: seq<ReadReply>, script: seq<Reply>): seq<byte>
      requires Valid() && Writes(replies, script).Going?
    {
      var p, s := Writes(replies, script), Input(replies);
      var gone := Gone(s);
      HoleFits(this, replies, script);
      ForcedFile(file + gone[..|gone| - p.pending], p.pending, HoleWritten(p.pending, p.script),
        FirstByte(replies), Left(s))
    }
  }

  /** Every pair of bytes swapped; an odd last byte stays. */
  function Swab(s: seq<byte>): (r: seq<byte>)
    ensures |r| == |s|
  {
    seq(|s|, i requires 0 <= i < |s| => SwabAt(s, i))
  }

  function SwabAt(s: seq<byte>, i: nat): byte
    requires i < |s|
  {
    if i % 2 == 1 then s[i - 1] else if i + 1 < |s| then s[i + 1] else s[i]
  }

  lemma LastPieceFits(cfg: Config, replies: seq<ReadReply>)
    requires cfg.Valid() && !cfg.direct && cfg.Emitted(cfg.Input(replies)) != []
    ensures 0 < cfg.LastPiece(replies) <= |cfg.Emitted(cfg.Input(replies))|
  {
    hide cfg.Input, Records, Lines, RTrim, Whole;
    var s := cfg.Input(replies);
    match cfg.mode
    case Def =>
    case Block => RecordsWhole(cfg.table, cfg.cbsz, s, |s|);
    case Unblock => LastLineOf(cfg.cbsz, s, Whole(cfg.cbsz, |s|));
  }

  lemma LastLineOf(cbsz: nat, s: seq<byte>, k: nat)
    requires cbsz > 0 && k <= |s|
    ensures k >= cbsz ==> |Lines(cbsz, s, k)| >= |RTrim(s[k - cbsz..k])| + 1
    ensures k < cbsz ==> Lines(cbsz, s, k) == []
  {
    hide RTrim;
  }

  // ---------------------------------------------------------------- count=

  /** A run takes as many replies as count= lets it, and no more. */
  lemma {:induction false} TakenIs(cfg: Config, replies: seq<ReadReply>, n: nat)
    requires n <= |replies| && forall m :: 0 <= m < n ==> !cfg.Full(replies[..m])
    ensures var k := cfg.Taken(replies, n);
      && (forall m :: 0 <= m < k ==> !cfg.Full(replies[..m]))
      && (k < |replies| ==> cfg.Full(replies[..k]))
    decreases |replies| - n
  {
    hide cfg.Full;
    if n < |replies| && !cfg.Full(replies[..n]) {
      TakenIs(cfg, replies, n + 1);
    }
  }

  /** Exactly count= blocks are taken, or the input has ended before. */
  lemma TakenBlocks(cfg: Config, replies: seq<ReadReply>)
    ensures var k := cfg.Taken(replies, 0);
      && (cfg.limit.None? ==> k == |replies|)
      && (cfg.limit.Some? ==> cfg.Blocks(replies[..k]) <= cfg.limit.value)
      && (cfg.limit.Some? && k < |replies| ==> cfg.Blocks(replies[..k]) == cfg.limit.value)
  {
    hide cfg.Taken, cfg.Blocks, cfg.BlockOf;
    var k := cfg.Taken(replies, 0);
    TakenIs(cfg, replies, 0);
    NoInput(cfg);
    assert replies[..0] == [];
    if k > 0 {
      InputNext(cfg, replies, k - 1);
      assert !cfg.Full(replies[..k - 1]);
    }
  }

  lemma NoInput(cfg: Config)
    ensures cfg.Input([]) == [] && cfg.Blocks([]) == 0 && cfg.LastBlock([]) == 0
    ensures forall script :: cfg.WritesDirect([], script) == Going(0, script)
  {
  }

  lemma InputNext(cfg: Config, replies: seq<ReadReply>, k: nat)
    requires k < |replies|
    ensures cfg.Input(replies[..k + 1]) == cfg.Input(replies[..k]) + cfg.BlockOf(replies[k])
    ensures cfg.Blocks(replies[..k + 1]) ==
      cfg.Blocks(replies[..k]) + if replies[k].Data? || cfg.sync then 1 else 0
    ensures cfg.LastBlock(replies[..k + 1]) ==
      if cfg.BlockOf(replies[k]) == [] then cfg.LastBlock(replies[..k]) else |cfg.BlockOf(replies[k])|
  {
    hide cfg.BlockOf;
    assert replies[..k + 1][..k] == replies[..k];
  }

  lemma DirectNext(cfg: Config, replies: seq<ReadReply>, k: nat, script: seq<Reply>)
    requires k < |replies|
    ensures cfg.WritesDirect(replies[..k + 1], script) ==
      match cfg.WritesDirect(replies[..k], script)
      case Stuck => Stuck
      case Going(_, rest) => Forced(cfg.Dev(), cfg.BlockOf(replies[k]), 0, rest)
  {
    hide cfg.BlockOf;
    assert replies[..k + 1][..k] == replies[..k];
  }

  // ---------------------------------------------------------------- when a run succeeds

  /** What has gone to the output side stays. */
  lemma EmittedGrows(cfg: Config, s: seq<byte>, d: seq<byte>)
    requires cfg.Valid()
    ensures cfg.Emitted(s) <= cfg.Emitted(s + d)
  {
    hide Records, Lines, Whole, TrAll;
    var all := s + d;
    assert all[..|s|] == s;
    if !cfg.direct {
      match cfg.mode
      case Def => TrAllAppend(cfg.table, s, d);
      case Block =>
        MoreInput(cfg.table, cfg.cbsz, s, all);
        RecordsGrow(cfg.table, cfg.cbsz, all, |s|, |all|);
      case Unblock =>
        MoreRecords(cfg.cbsz, s, all);
        WholeWhole(cfg.cbsz, |all|);
        WholeGrows(cfg.cbsz, |s|, |all|);
        LinesGrow(cfg.cbsz, all, Whole(cfg.cbsz, |s|), Whole(cfg.cbsz, |all|));
    }
  }

  lemma WholeGrows(cbsz: nat, m: nat, n: nat)
    requires cbsz > 0 && m <= n
    ensures Whole(cbsz, m) <= Whole(cbsz, n)
  {
    hide Whole;
    WholeWhole(cbsz, m);
    WholeFrom(cbsz, Whole(cbsz, m), n);
  }

  lemma StuckSince(dev: Device, s: seq<byte>, t: seq<byte>, p: Progress)
    requires dev.dbsz > 0 && s <= t && Drain(dev, s, p) == Stuck
    ensures Drain(dev, t, p) == Stuck
  {
    hide Drain;
    assert t == s + t[|s|..];
    StuckStays(dev, s, t[|s|..], p);
  }

  /** When the writes stop early, nothing read later helps. */
  lemma {:induction false} StuckEarly(cfg: Config, replies: seq<ReadReply>, n: nat, k: nat, script: seq<Reply>)
    requires cfg.Valid() && n <= k <= |replies| && cfg.Writes(replies[..n], script) == Stuck
    ensures cfg.Writes(replies[..k], script) == Stuck
    decreases k
  {
    hide cfg.Input, cfg.BlockOf, cfg.WritesDirect, cfg.Emitted, Drain;
    if n < k {
      StuckEarly(cfg, replies, n, k - 1, script);
      if cfg.direct {
        DirectNext(cfg, replies, k - 1, script);
      } else {
        InputNext(cfg, replies, k - 1);
        var s := cfg.Input(replies[..k - 1]);
        EmittedGrows(cfg, s, cfg.BlockOf(replies[k - 1]));
        StuckSince(cfg.Dev(), cfg.Emitted(s), cfg.Emitted(cfg.Input(replies[..k])), Going(0, script));
      }
    }
  }

  lemma HarmlessForced(dev: Device, data: seq<byte>, pending: nat, script: seq<Reply>)
    requires Harmless(dev, script) && (pending > 0 ==> dev.sparse)
    ensures var p := Forced(dev, data, pending, script); p.Going? && p.pending == 0 && Harmless(dev, p.script)
  {
    hide Put;
    var rest := AfterHole(pending, script);
    assert Harmless(dev, rest);
    HarmlessPut(dev, true, data, 0, rest);
    ForcedLeavesNoHole(dev, data, rest);
  }

  lemma {:induction false} HarmlessDirect(cfg: Config, replies: seq<ReadReply>, script: seq<Reply>)
    requires cfg.Valid() && Harmless(cfg.Dev(), script)
    ensures var p := cfg.WritesDirect(replies, script); p.Going? && p.pending == 0 && Harmless(cfg.Dev(), p.script)
  {
    hide Harmless, Forced, cfg.BlockOf;
    if replies != [] {
      HarmlessDirect(cfg, replies[..|replies| - 1], script);
      HarmlessForced(cfg.Dev(), cfg.BlockOf(replies[|replies| - 1]), 0,
        cfg.WritesDirect(replies[..|replies| - 1], script).script);
    }
  }

  /** A run comes to its end when no read error is fatal and no write fails, however the writes are cut
      short or interrupted (but not on a tape). */
  lemma HarmlessSucceeds(cfg: Config, replies: seq<ReadReply>, script: seq<Reply>)
    requires cfg.Valid() && cfg.ReadsSucceed(replies) && Harmless(cfg.Dev(), script)
    ensures cfg.Succeeds(replies, script)
  {
    hide Harmless, Forced, Drain, cfg.WritesDirect, cfg.Emitted, cfg.Input, cfg.Left;
    if cfg.direct {
      HarmlessDirect(cfg, replies, script);
    } else {
      HarmlessDrain(cfg.Dev(), cfg.Emitted(cfg.Input(replies)), Going(0, script));
    }
    var p := cfg.Writes(replies, script);
    HarmlessForced(cfg.Dev(), cfg.Left(cfg.Input(replies)), p.pending, p.script);
  }

  // ---------------------------------------------------------------- which file it leaves

  /** `t` ends in `n` NULs. */
  predicate EndsInHole(t: seq<byte>, n: nat) {
    n <= |t| && t[|t| - n..] == Zeros(n)
  }

  lemma LongerHole(t: seq<byte>, n: nat, data: seq<byte>)
    requires EndsInHole(t, n) && AllZero(data)
    ensures EndsInHole(t + data, n + |data|)
  {
    var u := t + data;
    assert u[|u| - (n + |data|)..] == t[|t| - n..] + data;
    AllZeroIs(data);
    ZerosAppend(n, |data|);
  }

  lemma {:induction false} PutHole(dev: Device, t: seq<byte>, data: seq<byte>, pending: nat, script: seq<Reply>)
    requires EndsInHole(t, pending)
    ensures var p := Put(dev, false, data, pending, script); p.Going? ==> EndsInHole(t + data, p.pending)
    decreases |script|
  {
    hide AllZero, Zeros;
    NoHole(t);
    NoHole(t + data);
    if dev.sparse && AllZero(data) {
      LongerHole(t, pending, data);
    } else {
      match Next(script) {
        case Full =>
        case Failed =>
        case Interrupted =>
          if script != [] {
            PutHole(dev, t, data, 0, script[1..]);
          }
        case Short(n) =>
          if script != [] && n < |data| {
            NoHole(t + data[..n]);
            assert t + data[..n] + data[n..] == t + data;
            PutHole(dev, t + data[..n], data[n..], 0, script[1..]);
          }
      }
    }
  }

  lemma NoHole(t: seq<byte>)
    ensures EndsInHole(t, 0)
  {
  }

  lemma {:induction false} DrainHole(dev: Device, t: seq<byte>, s: seq<byte>, p: Progress)
    requires dev.dbsz > 0 && p.Going? && EndsInHole(t, p.pending)
    ensures var q := Drain(dev, s, p); q.Going? ==> EndsInHole(t + s[..Whole(dev.dbsz, |s|)], q.pending)
    decreases |s|
  {
    hide Put, EndsInHole;
    var n := dev.dbsz;
    if |s| < n {
      assert t + s[..0] == t;
    } else {
      PutHole(dev, t, s[..n], p.pending, p.script);
      var q := Put(dev, false, s[..n], p.pending, p.script);
      if q.Going? {
        var k := Whole(n, |s| - n);
        DrainHole(dev, t + s[..n], s[n..], q);
        assert t + s[..n] + s[n..][..k] == t + s[..n + k];
      } else {
        StuckIs(dev, s[n..]);
      }
    }
  }

  lemma {:induction false} DirectLeavesNoHole(cfg: Config, replies: seq<ReadReply>, script: seq<Reply>)
    ensures var p := cfg.WritesDirect(replies, script); p.Going? ==> p.pending == 0
  {
    hide cfg.BlockOf, Put;
    if replies != [] {
      var p := cfg.WritesDirect(replies[..|replies| - 1], script);
      if p.Going? {
        ForcedLeavesNoHole(cfg.Dev(), cfg.BlockOf(replies[|replies| - 1]), p.script);
      }
    }
  }

  /** The bytes that have left the output buffer end in the hole. */
  lemma HoleFits(cfg: Config, replies: seq<ReadReply>, script: seq<Reply>)
    requires cfg.Valid() && cfg.Writes(replies, script).Going?
    ensures EndsInHole(cfg.Gone(cfg.Input(replies)), cfg.Writes(replies, script).pending)
  {
    hide cfg.Input, cfg.Emitted, cfg.WritesDirect, Drain, EndsInHole;
    var s := cfg.Input(replies);
    NoHole([]);
    NoHole(cfg.Gone(s));
    if cfg.direct {
      DirectLeavesNoHole(cfg, replies, script);
    } else {
      DrainHole(cfg.Dev(), [], cfg.Emitted(s), Going(0, script));
      assert [] + cfg.Gone(s) == cfg.Gone(s);
    }
  }

  /** Exactly when the file left is the converted input. */
  lemma FinalExact(cfg: Config, file: seq<byte>, replies: seq<ReadReply>, script: seq<Reply>)
    requires cfg.Valid() && cfg.Writes(replies, script).Going?
    ensures cfg.Final(file, replies, script) == file + cfg.Converted(cfg.Input(replies)) <==>
      var p := cfg.Writes(replies, script);
      p.pending == 0 || (HoleWritten(p.pending, p.script) && cfg.FirstByte(replies) == 0)
  {
    hide cfg.Input, cfg.Emitted, cfg.Closing, cfg.Writes, cfg.FirstByte, ForcedFile, Zeros;
    var p, s := cfg.Writes(replies, script), cfg.Input(replies);
    var gone, left := cfg.Gone(s), cfg.Left(s);
    HoleFits(cfg, replies, script);
    GoneAndLeft(cfg, s);
    var base := gone[..|gone| - p.pending];
    assert gone == base + Zeros(p.pending);
    assert file + base + Zeros(p.pending) + left == file + (gone + left);
    ForcedFileExact(file + base, p.pending, HoleWritten(p.pending, p.script), cfg.FirstByte(replies), left);
  }

  lemma GoneAndLeft(cfg: Config, s: seq<byte>)
    requires cfg.Valid()
    ensures cfg.Gone(s) + cfg.Left(s) == cfg.Converted(s)
  {
    hide Records, Lines, Whole, TrAll;
    var out := cfg.Emitted(s);
    if cfg.direct {
      assert out[..|s|] == out;
    } else {
      var k := Whole(cfg.obs, |out|);
      Assoc(out[..k], out[k..], cfg.Closing(s));
      assert out[..k] + out[k..] == out;
    }
  }

  /** Without conv=sparse, and with bs= alone, that is always so. */
  lemma DenseIsExact(cfg: Config, file: seq<byte>, replies: seq<ReadReply>, script: seq<Reply>)
    requires cfg.Valid() && cfg.Writes(replies, script).Going? && (cfg.direct || !cfg.sparse)
    ensures cfg.Final(file, replies, script) == file + cfg.Converted(cfg.Input(replies))
  {
    hide cfg.Input, cfg.Emitted, cfg.WritesDirect, Drain, cfg.Final, cfg.Converted, cfg.FirstByte;
    FinalExact(cfg, file, replies, script);
    if cfg.direct {
      DirectLeavesNoHole(cfg, replies, script);
    } else {
      DenseDrain(cfg.Dev(), cfg.Emitted(cfg.Input(replies)), Going(0, script));
    }
  }

  lemma {:induction false} DensePut(dev: Device, data: seq<byte>, script: seq<Reply>)
    requires !dev.sparse
    ensures var p := Put(dev, false, data, 0, script); p.Going? ==> p.pending == 0
    decreases |script|
  {
    match Next(script) {
      case Full =>
      case Failed =>
      case Interrupted =>
        if script != [] {
          DensePut(dev, data, script[1..]);
        }
      case Short(n) =>
        if script != [] && n < |data| {
          DensePut(dev, data[n..], script[1..]);
        }
    }
  }

  lemma {:induction false} DenseDrain(dev: Device, s: seq<byte>, p: Progress)
    requires dev.dbsz > 0 && !dev.sparse && p.Going? && p.pending == 0
    ensures var q := Drain(dev, s, p); q.Going? ==> q.pending == 0
    decreases |s|
  {
    hide Put;
    if |s| >= dev.dbsz {
      var q := Put(dev, false, s[..dev.dbsz], 0, p.script);
      DensePut(dev, s[..dev.dbsz], p.script);
      if q.Going? {
        DenseDrain(dev, s[dev.dbsz..], q);
      } else {
        StuckIs(dev, s[dev.dbsz..]);
      }
    }
  }

  /** Every write is done at once, and holes can be seeked over. */
  predicate AllFull(dev: Device, script: seq<Reply>) {
    && (dev.sparse ==> dev.seekable)
    && forall i :: 0 <= i < |script| ==> script[i].Full?
  }

  /** A hole is pending exactly when the last whole block was all NULs. */
  lemma {:induction false} FullDrain(dev: Device, s: seq<byte>, p: Progress)
    requires dev.dbsz > 0 && p.Going? && AllFull(dev, p.script) && (p.pending > 0 ==> dev.sparse)
    ensures var q, k := Drain(dev, s, p), Whole(dev.dbsz, |s|);
      && q.Going? && AllFull(dev, q.script)
      && (k == 0 ==> q == p)
      && (k > 0 ==> k >= dev.dbsz && (q.pending > 0 <==> dev.sparse && AllZero(s[k - dev.dbsz..k])))
    decreases |s|
  {
    hide AllZero, Put, AllFull, Drain, Whole;
    var n := dev.dbsz;
    if |s| < n {
      Small(dev, s, p);
      WholeSmall(n, |s|);
    } else {
      var block, rest := s[..n], s[n..];
      var q := Put(dev, false, block, p.pending, p.script);
      DrainFirst(dev, s, p);
      WholeStep(n, |s|);
      FullPut(dev, block, p.pending, p.script);
      FullDrain(dev, rest, q);
      var k := Whole(n, |rest|);
      if k > 0 {
        LaterSlice(s, n, k - n, k);
      }
    }
  }

  lemma LaterSlice(s: seq<byte>, n: nat, i: nat, j: nat)
    requires i <= j && n + j <= |s|
    ensures s[n..][i..j] == s[n + i..n + j]
  {
  }

  lemma DrainFirst(dev: Device, s: seq<byte>, p: Progress)
    requires 0 < dev.dbsz <= |s| && p.Going?
    ensures Drain(dev, s, p) == Drain(dev, s[dev.dbsz..], Put(dev, false, s[..dev.dbsz], p.pending, p.script))
  {
    hide Put;
  }

  lemma FullPut(dev: Device, block: seq<byte>, pending: nat, script: seq<Reply>)
    requires block != [] && AllFull(dev, script) && (pending > 0 ==> dev.sparse)
    ensures var q := Put(dev, false, block, pending, script);
      q.Going? && AllFull(dev, q.script) && (q.pending > 0 <==> dev.sparse && AllZero(block))
  {
    hide AllZero;
    assert Next(script).Full? && AllFull(dev, After(script));
  }

  /** When no write is cut short: the file is the converted input unless conv=sparse is given, the last
      whole output block is all NULs, and the first byte of the output buffer is not. */
  lemma SparseExact(cfg: Config, file: seq<byte>, replies: seq<ReadReply>, script: seq<Reply>)
    requires cfg.Valid() && !cfg.direct && AllFull(cfg.Dev(), script)
    ensures cfg.Writes(replies, script).Going?
    ensures cfg.Final(file, replies, script) == file + cfg.Converted(cfg.Input(replies)) <==>
      var out := cfg.Emitted(cfg.Input(replies));
      var k := Whole(cfg.obs, |out|);
      !cfg.sparse || k < cfg.obs || !AllZero(out[k - cfg.obs..k]) || cfg.FirstByte(replies) == 0
  {
    hide cfg.Input, cfg.Emitted, Drain, cfg.Final, cfg.Converted, cfg.FirstByte, AllZero;
    FullDrain(cfg.Dev(), cfg.Emitted(cfg.Input(replies)), Going(0, script));
    FinalExact(cfg, file, replies, script);
  }

  lemma HoleGrows(dev: Device, data: seq<byte>, pending: nat, script: seq<Reply>)
    requires dev.sparse && AllZero(data)
    ensures Put(dev, false, data, pending, script) == Going(pending + |data|, script)
  {
  }

  /** Copying 0,0,0,0,'a' read at once with obs=4 conv=sparse leaves 0,0,0,'a','a'. */
  lemma HoleLosesItsLastByte(cfg: Config, replies: seq<ReadReply>)
    requires cfg == Config(Def, NoTable, 5, 4, 0, false, false, false, false, true, false, true, None)
    requires replies == [Data([0, 0, 0, 0, 97])]
    ensures cfg.Valid() && cfg.Succeeds(replies, []) && cfg.Converted(cfg.Input(replies)) == [0, 0, 0, 0, 97]
    ensures cfg.Final([], replies, []) == [0, 0, 0, 97, 97]
  {
    var s: seq<byte> := [0, 0, 0, 0, 97];
    assert cfg.Input(replies) == s by {
      assert replies[..0] == [];
    }
    hide cfg.Input, Drain, Whole, TrAll, Put;
    WholeStep(4, 5);
    WholeSmall(4, 1);
    assert Drain(cfg.Dev(), s, Going(0, [])) == Going(4, []) by {
      DrainFirst(cfg.Dev(), s, Going(0, []));
      HoleGrows(cfg.Dev(), s[..4], 0, []);
      Small(cfg.Dev(), s[4..], Going(4, []));
    }
    assert cfg.Emitted(s) == s && cfg.Left(s) == [97] && cfg.Gone(s) == s[..4];
    assert [] + s[..4][..0] == [];
  }
}
