/** What dd's record conversions mean on a whole input, and how those meanings compose. */
module DdSpec {
  import opened Common
  import opened DdOutput

  const NL: byte := 10
  const SP: byte := 32

  /** A 256-entry conversion table (`ctab`), or none. */
  datatype Table = NoTable | Table(t: seq<byte>)

  predicate ValidTable(tab: Table) {
    tab.Table? ==> |tab.t| == 256
  }

  function Tr(tab: Table, c: byte): byte
    requires ValidTable(tab)
  {
    if tab.Table? then tab.t[c] else c
  }

  function TrAll(tab: Table, s: seq<byte>): (r: seq<byte>)
    requires ValidTable(tab)
    ensures |r| == |s| && forall i :: 0 <= i < |s| ==> r[i] == Tr(tab, s[i])
    ensures tab.NoTable? ==> r == s
  {
    seq(|s|, i requires 0 <= i < |s| => Tr(tab, s[i]))
  }

  lemma TrAllAppend(tab: Table, s: seq<byte>, d: seq<byte>)
    requires ValidTable(tab)
    ensures TrAll(tab, s + d) == TrAll(tab, s) + TrAll(tab, d)
  {
  }

  function Copies(c: byte, n: nat): (r: seq<byte>)
    ensures |r| == n && forall i :: 0 <= i < n ==> r[i] == c
  {
    seq(n, _ => c)
  }

  predicate NoNewline(s: seq<byte>) {
    forall i :: 0 <= i < |s| ==> s[i] != NL
  }

  /** The length of the first line of `s`, its newline excluded. */
  function LineEnd(s: seq<byte>): (e: nat)
    ensures e <= |s|
  {
    LineEndFrom(s, 0)
  }

  function LineEndFrom(s: seq<byte>, i: nat): (e: nat)
    requires i <= |s|
    ensures i <= e <= |s|
    decreases |s| - i
  {
    if i < |s| && s[i] != NL then LineEndFrom(s, i + 1) else i
  }

  predicate EndsFirstLine(s: seq<byte>, e: nat) {
    e <= |s| && NoNewline(s[..e]) && (e < |s| ==> s[e] == NL)
  }

  lemma {:induction false} LineEndFromIs(s: seq<byte>, i: nat, e: nat)
    requires i <= e && EndsFirstLine(s, e)
    ensures LineEndFrom(s, i) == e
    decreases e - i
  {
    if i < e {
      assert s[..e][i] != NL;
      LineEndFromIs(s, i + 1, e);
    }
  }

  lemma LineEndIs(s: seq<byte>, e: nat)
    requires EndsFirstLine(s, e)
    ensures LineEnd(s) == e
  {
    LineEndFromIs(s, 0, e);
  }

  lemma {:induction false} LineEndFromEnds(s: seq<byte>, i: nat)
    requires i <= |s| && NoNewline(s[..i])
    ensures EndsFirstLine(s, LineEndFrom(s, i))
    decreases |s| - i
  {
    if i < |s| && s[i] != NL {
      assert s[..i + 1] == s[..i] + [s[i]];
      LineEndFromEnds(s, i + 1);
    }
  }

  lemma LineEndEnds(s: seq<byte>)
    ensures EndsFirstLine(s, LineEnd(s))
  {
    LineEndFromEnds(s, 0);
  }

  /** A text is its first line, the newline and the rest; or it has no newline. */
  lemma FirstLine(s: seq<byte>)
    ensures LineEnd(s) < |s| ==>
      NoNewline(s[..LineEnd(s)]) && s == s[..LineEnd(s)] + [NL] + s[LineEnd(s) + 1..]
    ensures LineEnd(s) == |s| ==> NoNewline(s) && s[..LineEnd(s)] == s
  {
    LineEndEnds(s);
    assert s[..|s|] == s;
  }

  // ---------------------------------------------------------------- conv=block

  /** A line cut to the record size. */
  function Cut(cbsz: nat, line: seq<byte>): (r: seq<byte>)
    ensures |r| <= cbsz
  {
    if |line| >= cbsz then line[..cbsz] else line
  }

  /** One record: the cut line, translated and padded with blanks. */
  function Pad(tab: Table, cbsz: nat, line: seq<byte>): (r: seq<byte>)
    requires ValidTable(tab) && |line| <= cbsz
    ensures |r| == cbsz
  {
    TrAll(tab, line) + Copies(Tr(tab, SP), cbsz - |line|)
  }

  predicate AllFit(cbsz: nat, lines: seq<seq<byte>>) {
    forall i :: 0 <= i < |lines| ==> |lines[i]| <= cbsz
  }

  /** The records of a list of cut lines. */
  function Render(tab: Table, cbsz: nat, lines: seq<seq<byte>>): seq<byte>
    requires ValidTable(tab) && AllFit(cbsz, lines)
  {
    if lines == [] then []
    else Render(tab, cbsz, lines[..|lines| - 1]) + Pad(tab, cbsz, lines[|lines| - 1])
  }

  lemma RenderNext(tab: Table, cbsz: nat, lines: seq<seq<byte>>, line: seq<byte>)
    requires ValidTable(tab) && AllFit(cbsz, lines) && |line| <= cbsz
    ensures AllFit(cbsz, lines + [line])
    ensures Render(tab, cbsz, lines + [line]) == Render(tab, cbsz, lines) + Pad(tab, cbsz, line)
  {
    hide Pad;
    assert (lines + [line])[..|lines|] == lines;
  }

  lemma {:induction false} RenderAppend(tab: Table, cbsz: nat, a: seq<seq<byte>>, b: seq<seq<byte>>)
    requires ValidTable(tab) && AllFit(cbsz, a) && AllFit(cbsz, b)
    ensures AllFit(cbsz, a + b) && Render(tab, cbsz, a + b) == Render(tab, cbsz, a) + Render(tab, cbsz, b)
  {
    hide Pad, Render;
    if b == [] {
      assert a + b == a;
      RenderNone(tab, cbsz);
    } else {
      var front, last := b[..|b| - 1], b[|b| - 1];
      assert b == front + [last] && a + b == a + front + [last];
      RenderAppend(tab, cbsz, a, front);
      RenderNext(tab, cbsz, front, last);
      RenderNext(tab, cbsz, a + front, last);
      Assoc(Render(tab, cbsz, a), Render(tab, cbsz, front), Pad(tab, cbsz, last));
    }
  }

  lemma RenderNone(tab: Table, cbsz: nat)
    requires ValidTable(tab)
    ensures Render(tab, cbsz, []) == []
  {
  }

  /** The cut lines of `s`; the last line needs no newline. */
  function AllLines(cbsz: nat, s: seq<byte>): (r: seq<seq<byte>>)
    ensures AllFit(cbsz, r)
    decreases |s|
  {
    if s == [] then []
    else
      var e := LineEnd(s);
      [Cut(cbsz, s[..e])] + if e < |s| then AllLines(cbsz, s[e + 1..]) else []
  }

  /** conv=block as the manual has it: one record for each line. */
  function BlockSpec(tab: Table, cbsz: nat, s: seq<byte>): seq<byte>
    requires ValidTable(tab)
  {
    Render(tab, cbsz, AllLines(cbsz, s))
  }

  lemma Assoc(a: seq<byte>, b: seq<byte>, c: seq<byte>)
    ensures a + b + c == a + (b + c)
  {
  }

  /** Unfolding at the first newline, or at the end. */
  lemma AllLinesFirst(cbsz: nat, s: seq<byte>)
    ensures LineEnd(s) < |s| ==>
      AllLines(cbsz, s) == [Cut(cbsz, s[..LineEnd(s)])] + AllLines(cbsz, s[LineEnd(s) + 1..])
    ensures LineEnd(s) == |s| ==> AllLines(cbsz, s) == if s == [] then [] else [Cut(cbsz, s)]
  {
    assert s[..|s|] == s;
  }

  lemma RenderFirst(tab: Table, cbsz: nat, lines: seq<seq<byte>>)
    requires ValidTable(tab) && AllFit(cbsz, lines) && lines != []
    ensures Render(tab, cbsz, lines) == Pad(tab, cbsz, lines[0]) + Render(tab, cbsz, lines[1..])
  {
    var first := [lines[0]];
    RenderAppend(tab, cbsz, first, lines[1..]);
    assert first + lines[1..] == lines;
    assert first[..0] == [] && Render(tab, cbsz, first) == Pad(tab, cbsz, lines[0]);
  }

  /** Where the line that holds byte `n` starts: behind the last newline before it. */
  function LineStart(s: seq<byte>, n: nat): (k: nat)
    requires n <= |s|
    ensures k <= n
  {
    if n == 0 || s[n - 1] == NL then n else LineStart(s, n - 1)
  }

  /** The records put out once `n` bytes have been read: a record leaves when its line ends, or as soon
      as the line has filled it. */
  function Records(tab: Table, cbsz: nat, s: seq<byte>, n: nat): seq<byte>
    requires ValidTable(tab) && n <= |s|
  {
    if n == 0 then []
    else
      var before, k := Records(tab, cbsz, s, n - 1), LineStart(s, n - 1);
      if s[n - 1] == NL then
        if n - 1 - k < cbsz then before + Pad(tab, cbsz, s[k..n - 1]) else before
      else
        if n - k == cbsz then before + Pad(tab, cbsz, s[k..n]) else before
  }

  /** The last line has already filled its record; its rest is to be tossed. */
  predicate Truncating(cbsz: nat, s: seq<byte>) {
    |s| - LineStart(s, |s|) >= cbsz
  }

  /** The bytes that must be kept for the next read. */
  function Tail(cbsz: nat, s: seq<byte>): (r: seq<byte>)
    ensures cbsz > 0 ==> |r| < cbsz
  {
    if Truncating(cbsz, s) then [] else s[LineStart(s, |s|)..]
  }

  /** No newline from `k` up to `n`. */
  predicate OneLine(s: seq<byte>, k: nat, n: nat)
    requires n <= |s|
  {
    forall i :: k <= i < n ==> s[i] != NL
  }

  lemma SlicesAgree(s: seq<byte>, t: seq<byte>, n: nat, i: nat, j: nat)
    requires n <= |s| && n <= |t| && s[..n] == t[..n] && i <= j <= n
    ensures s[i..j] == t[i..j]
  {
    assert s[i..j] == s[..n][i..j] && t[i..j] == t[..n][i..j];
  }

  /** The records put out depend only on the bytes read. */
  lemma {:induction false} RecordsPrefix(tab: Table, cbsz: nat, s: seq<byte>, t: seq<byte>, n: nat)
    requires ValidTable(tab) && n <= |s| && n <= |t| && s[..n] == t[..n]
    ensures Records(tab, cbsz, s, n) == Records(tab, cbsz, t, n) && LineStart(s, n) == LineStart(t, n)
  {
    if n > 0 {
      SlicesAgree(s, t, n, 0, n - 1);
      RecordsPrefix(tab, cbsz, s, t, n - 1);
      assert s[n - 1] == s[..n][n - 1] == t[n - 1];
      var k := LineStart(s, n - 1);
      SlicesAgree(s, t, n, k, n);
      SlicesAgree(s, t, n, k, n - 1);
    }
  }

  /** An unfinished line is put out once, when it fills a record. */
  lemma {:induction false} UnfinishedLine(tab: Table, cbsz: nat, s: seq<byte>, k: nat, n: nat)
    requires ValidTable(tab) && cbsz > 0 && k <= n <= |s| && LineStart(s, k) == k && OneLine(s, k, n)
    ensures LineStart(s, n) == k
    ensures n - k < cbsz ==> Records(tab, cbsz, s, n) == Records(tab, cbsz, s, k)
    ensures n - k >= cbsz ==> Records(tab, cbsz, s, n) == Records(tab, cbsz, s, k) + Pad(tab, cbsz, s[k..k + cbsz])
  {
    if n > k {
      UnfinishedLine(tab, cbsz, s, k, n - 1);
    }
  }

  lemma {:induction false} LineStartIs(s: seq<byte>, n: nat)
    requires n <= |s|
    ensures LineStart(s, LineStart(s, n)) == LineStart(s, n) && OneLine(s, LineStart(s, n), n)
  {
    if n > 0 && s[n - 1] != NL {
      LineStartIs(s, n - 1);
    }
  }

  /** The more has been read, the more records are out. */
  lemma {:induction false} RecordsGrow(tab: Table, cbsz: nat, s: seq<byte>, m: nat, n: nat)
    requires ValidTable(tab) && m <= n <= |s|
    ensures Records(tab, cbsz, s, m) <= Records(tab, cbsz, s, n)
    decreases n
  {
    hide Pad;
    if m < n {
      RecordsGrow(tab, cbsz, s, m, n - 1);
    }
  }

  /** Records come out whole. */
  lemma {:induction false} RecordsWhole(tab: Table, cbsz: nat, s: seq<byte>, n: nat)
    requires ValidTable(tab) && n <= |s|
    ensures var r := Records(tab, cbsz, s, n); r == [] || |r| >= cbsz
  {
    if n > 0 {
      RecordsWhole(tab, cbsz, s, n - 1);
    }
  }

  /** More input: what was put out stays, and the kept tail starts a line. */
  lemma MoreInput(tab: Table, cbsz: nat, s: seq<byte>, all: seq<byte>)
    requires ValidTable(tab) && cbsz > 0 && |s| <= |all| && all[..|s|] == s
    ensures Records(tab, cbsz, all, |s|) == Records(tab, cbsz, s, |s|)
    ensures LineStart(all, |s|) == LineStart(s, |s|) && LineStart(all, LineStart(s, |s|)) == LineStart(s, |s|)
    ensures !Truncating(cbsz, s) ==> Records(tab, cbsz, all, LineStart(s, |s|)) == Records(tab, cbsz, s, |s|)
  {
    hide Records, LineStart;
    RecordsPrefix(tab, cbsz, s, all, |s|);
    LineStartIs(all, |s|);
    if !Truncating(cbsz, s) {
      UnfinishedLine(tab, cbsz, all, LineStart(s, |s|), |s|);
    }
  }

  /** A finished line is put out once: its first `cnt` bytes, all of it unless it is longer than a record. */
  lemma FinishedLine(tab: Table, cbsz: nat, s: seq<byte>, k: nat, cnt: nat, e: nat)
    requires ValidTable(tab) && cbsz > 0 && k <= e < |s| && LineStart(s, k) == k && OneLine(s, k, e) && s[e] == NL
    requires cnt == if e - k < cbsz then e - k else cbsz
    ensures LineStart(s, e + 1) == e + 1
    ensures Records(tab, cbsz, s, e + 1) == Records(tab, cbsz, s, k) + Pad(tab, cbsz, s[k..k + cnt])
  {
    hide Pad;
    UnfinishedLine(tab, cbsz, s, k, e);
  }

  lemma CutSlice(cbsz: nat, s: seq<byte>, k: nat, e: nat)
    requires k <= e <= |s|
    ensures Cut(cbsz, s[k..e]) == s[k..k + if e - k < cbsz then e - k else cbsz]
  {
  }

  /** While a line is being tossed, input up to its newline puts nothing out. */
  lemma {:induction false} TossedLine(tab: Table, cbsz: nat, s: seq<byte>, m: nat, n: nat)
    requires ValidTable(tab) && m <= n <= |s| && m - LineStart(s, m) >= cbsz && OneLine(s, m, n)
    ensures LineStart(s, n) == LineStart(s, m) && Records(tab, cbsz, s, n) == Records(tab, cbsz, s, m)
  {
    if n > m {
      TossedLine(tab, cbsz, s, m, n - 1);
    }
  }

  /** The newline that ends a tossed line puts nothing out either, and starts afresh. */
  lemma TossedThrough(tab: Table, cbsz: nat, s: seq<byte>, m: nat, e: nat)
    requires ValidTable(tab) && m <= e < |s| && m - LineStart(s, m) >= cbsz && OneLine(s, m, e) && s[e] == NL
    ensures LineStart(s, e + 1) == e + 1 && Records(tab, cbsz, s, e + 1) == Records(tab, cbsz, s, m)
  {
    TossedLine(tab, cbsz, s, m, e);
  }

  /** What `block_close` adds: the unfinished record, padded but not translated. */
  function ClosingRecord(tab: Table, cbsz: nat, s: seq<byte>): seq<byte>
    requires ValidTable(tab) && cbsz > 0
  {
    var tail := Tail(cbsz, s);
    if tail == [] then [] else tail + Copies(Tr(tab, SP), cbsz - |tail|)
  }

  /** The same record as the manual has it: padded and translated. */
  function TailRecord(tab: Table, cbsz: nat, s: seq<byte>): seq<byte>
    requires ValidTable(tab) && cbsz > 0
  {
    var tail := Tail(cbsz, s);
    if tail == [] then [] else Pad(tab, cbsz, tail)
  }

  /** conv=block of a suffix, unfolded at its first line. */
  lemma BlockSpecAt(tab: Table, cbsz: nat, s: seq<byte>, k: nat) returns (e: nat)
    requires ValidTable(tab) && k <= |s|
    ensures k <= e <= |s| && OneLine(s, k, e) && (e < |s| ==> s[e] == NL)
    ensures BlockSpec(tab, cbsz, s[k..]) ==
      if e < |s| then Pad(tab, cbsz, Cut(cbsz, s[k..e])) + BlockSpec(tab, cbsz, s[e + 1..])
      else if k < |s| then Pad(tab, cbsz, Cut(cbsz, s[k..])) else []
  {
    var rest := s[k..];
    e := k + LineEnd(rest);
    LineEndEnds(rest);
    assert forall i :: k <= i < e ==> s[i] == rest[..e - k][i - k];
    assert rest[..e - k] == s[k..e] && (e < |s| ==> rest[e - k + 1..] == s[e + 1..]);
    AllLinesFirst(cbsz, rest);
    if rest != [] {
      RenderFirst(tab, cbsz, AllLines(cbsz, rest));
    }
  }

  /** The last line, unfinished, leaves its record or its tail. */
  lemma LastLine(tab: Table, cbsz: nat, s: seq<byte>, k: nat)
    requires ValidTable(tab) && cbsz > 0 && k <= |s| && LineStart(s, k) == k && OneLine(s, k, |s|)
    ensures Records(tab, cbsz, s, |s|) + TailRecord(tab, cbsz, s) ==
      Records(tab, cbsz, s, k) + if k < |s| then Pad(tab, cbsz, Cut(cbsz, s[k..])) else []
  {
    UnfinishedLine(tab, cbsz, s, k, |s|);
    assert |s| - k >= cbsz ==> s[k..][..cbsz] == s[k..k + cbsz];
  }

  lemma {:induction false} BlockSpecFrom(tab: Table, cbsz: nat, s: seq<byte>, k: nat)
    requires ValidTable(tab) && cbsz > 0 && k <= |s| && LineStart(s, k) == k
    ensures Records(tab, cbsz, s, |s|) + TailRecord(tab, cbsz, s) ==
      Records(tab, cbsz, s, k) + BlockSpec(tab, cbsz, s[k..])
    decreases |s| - k
  {
    hide Records, BlockSpec, Pad, Cut, TailRecord;
    var e := BlockSpecAt(tab, cbsz, s, k);
    if e < |s| {
      FinishedLine(tab, cbsz, s, k, if e - k < cbsz then e - k else cbsz, e);
      CutSlice(cbsz, s, k, e);
      BlockSpecFrom(tab, cbsz, s, e + 1);
      Assoc(Records(tab, cbsz, s, k), Pad(tab, cbsz, Cut(cbsz, s[k..e])), BlockSpec(tab, cbsz, s[e + 1..]));
    } else {
      LastLine(tab, cbsz, s, k);
    }
  }

  /** conv=block is the records put out and the last one, translated like the others. */
  lemma BlockSpecSplits(tab: Table, cbsz: nat, s: seq<byte>)
    requires ValidTable(tab) && cbsz > 0
    ensures BlockSpec(tab, cbsz, s) == Records(tab, cbsz, s, |s|) + TailRecord(tab, cbsz, s)
  {
    BlockSpecFrom(tab, cbsz, s, 0);
    assert s[0..] == s;
  }

  /** Streaming `block` followed by `block_close` gives conv=block exactly when the unfinished last
      record reads the same translated and untranslated. */
  lemma BlockCloseExact(tab: Table, cbsz: nat, s: seq<byte>)
    requires ValidTable(tab) && cbsz > 0
    ensures Records(tab, cbsz, s, |s|) + ClosingRecord(tab, cbsz, s) == BlockSpec(tab, cbsz, s)
            <==> TrAll(tab, Tail(cbsz, s)) == Tail(cbsz, s)
  {
    BlockSpecSplits(tab, cbsz, s);
    var r, tail := Records(tab, cbsz, s, |s|), Tail(cbsz, s);
    var got, want := ClosingRecord(tab, cbsz, s), TailRecord(tab, cbsz, s);
    assert (r + got)[|r|..] == got && (r + want)[|r|..] == want;
    if tail != [] {
      assert got[..|tail|] == tail && want[..|tail|] == TrAll(tab, tail);
    }
  }

  /** The manual's promise fails on the single byte "a" under a table that maps it to something else. */
  lemma BlockTailIsNotTranslated(tab: Table, cbsz: nat)
    requires tab.Table? && |tab.t| == 256 && tab.t[97] != 97 && cbsz > 1
    ensures Records(tab, cbsz, [97], 1) + ClosingRecord(tab, cbsz, [97]) != BlockSpec(tab, cbsz, [97])
  {
    assert LineStart([97], 1) == LineStart([97], 0) == 0;
    assert Tail(cbsz, [97]) == [97];
    assert TrAll(tab, [97])[0] == tab.t[97];
    BlockCloseExact(tab, cbsz, [97]);
  }

  // ---------------------------------------------------------------- conv=unblock

  /** A record without its trailing blanks. */
  function RTrim(s: seq<byte>): (r: seq<byte>) {
    s[..TextEnd(s)]
  }

  /** The number of bytes before the trailing blanks. */
  function TextEnd(s: seq<byte>): (n: nat)
    ensures n <= |s|
  {
    TextEndFrom(s, |s|)
  }

  function TextEndFrom(s: seq<byte>, n: nat): (m: nat)
    requires n <= |s|
    ensures m <= n
  {
    if n > 0 && s[n - 1] == SP then TextEndFrom(s, n - 1) else n
  }

  predicate EndsText(s: seq<byte>, n: nat) {
    n <= |s| && (n > 0 ==> s[n - 1] != SP) && forall i :: n <= i < |s| ==> s[i] == SP
  }

  lemma {:induction false} TextEndFromIs(s: seq<byte>, n: nat, m: nat)
    requires n <= m <= |s| && EndsText(s, n)
    ensures TextEndFrom(s, m) == n
    decreases m
  {
    if n < m {
      TextEndFromIs(s, n, m - 1);
    }
  }

  lemma TextEndIs(s: seq<byte>, n: nat)
    requires EndsText(s, n)
    ensures TextEnd(s) == n
  {
    TextEndFromIs(s, n, |s|);
  }

  lemma {:induction false} TextEndFromEnds(s: seq<byte>, m: nat)
    requires m <= |s| && forall i :: m <= i < |s| ==> s[i] == SP
    ensures EndsText(s, TextEndFrom(s, m))
    decreases m
  {
    if m > 0 && s[m - 1] == SP {
      TextEndFromEnds(s, m - 1);
    }
  }

  lemma TextEndEnds(s: seq<byte>)
    ensures EndsText(s, TextEnd(s))
  {
    TextEndFromEnds(s, |s|);
  }

  /** conv=unblock: each record, the last one possibly short, becomes its trimmed text and a newline. */
  function UnblockSpec(cbsz: nat, s: seq<byte>): seq<byte>
    requires cbsz > 0
    decreases |s|
  {
    if s == [] then []
    else if |s| < cbsz then RTrim(s) + [NL]
    else RTrim(s[..cbsz]) + [NL] + UnblockSpec(cbsz, s[cbsz..])
  }

  /** The lines put out once the records up to `k` have been read. */
  function Lines(cbsz: nat, s: seq<byte>, k: nat): seq<byte>
    requires cbsz > 0 && k <= |s|
  {
    if k < cbsz then [] else Lines(cbsz, s, k - cbsz) + (RTrim(s[k - cbsz..k]) + [NL])
  }

  /** The bytes that must be kept for the next read. */
  function Rest(cbsz: nat, s: seq<byte>): (r: seq<byte>)
    requires cbsz > 0
    ensures |r| < cbsz
  {
    s[Whole(cbsz, |s|)..]
  }

  /** What `unblock_close` adds. */
  function ClosingLine(cbsz: nat, s: seq<byte>): seq<byte>
    requires cbsz > 0
  {
    if Rest(cbsz, s) == [] then [] else RTrim(Rest(cbsz, s)) + [NL]
  }

  lemma {:induction false} LinesPrefix(cbsz: nat, s: seq<byte>, t: seq<byte>, k: nat)
    requires cbsz > 0 && k <= |s| && k <= |t| && s[..k] == t[..k]
    ensures Lines(cbsz, s, k) == Lines(cbsz, t, k)
  {
    if k >= cbsz {
      SlicesAgree(s, t, k, 0, k - cbsz);
      SlicesAgree(s, t, k, k - cbsz, k);
      LinesPrefix(cbsz, s, t, k - cbsz);
    }
  }

  /** More input: the lines put out stay. */
  lemma MoreRecords(cbsz: nat, s: seq<byte>, all: seq<byte>)
    requires cbsz > 0 && |s| <= |all| && all[..|s|] == s
    ensures Lines(cbsz, all, Whole(cbsz, |s|)) == Lines(cbsz, s, Whole(cbsz, |s|))
    ensures Whole(cbsz, Whole(cbsz, |s|)) == Whole(cbsz, |s|)
  {
    hide Lines, Whole;
    var k := Whole(cbsz, |s|);
    WholeWhole(cbsz, |s|);
    assert all[..k] == all[..|s|][..k] == s[..k];
    LinesPrefix(cbsz, s, all, k);
  }

  /** The more whole records have been read, the more lines are out. */
  lemma {:induction false} LinesGrow(cbsz: nat, s: seq<byte>, m: nat, n: nat)
    requires cbsz > 0 && m <= n <= |s| && Whole(cbsz, m) == m && Whole(cbsz, n) == n
    ensures Lines(cbsz, s, m) <= Lines(cbsz, s, n)
    decreases n
  {
    hide RTrim;
    if m < n {
      WholeFrom(cbsz, m, n);
      WholeStep(cbsz, n);
      LinesGrow(cbsz, s, m, n - cbsz);
    }
  }

  /** After whole records, a short one is kept. */
  lemma LastRecord(cbsz: nat, s: seq<byte>, k: nat)
    requires cbsz > 0 && k <= |s| < k + cbsz && Whole(cbsz, k) == k
    ensures Whole(cbsz, |s|) == k
  {
    WholeFrom(cbsz, k, |s|);
  }

  /** The first records of `s`, unblocked at once or one by one. */
  lemma {:induction false} UnblockSpecPrefix(cbsz: nat, s: seq<byte>, k: nat, rest: seq<byte>)
    requires cbsz > 0 && k <= |s| && rest == s[..k] && Whole(cbsz, k) == k
    ensures UnblockSpec(cbsz, rest) == Lines(cbsz, s, k)
  {
    hide UnblockSpec, RTrim;
    UnblockNothing(cbsz);
    if k >= cbsz {
      var before, last := s[..k - cbsz], s[k - cbsz..k];
      assert rest == before + last;
      UnblockSpecAppend(cbsz, before, last);
      UnblockSpecPrefix(cbsz, s, k - cbsz, before);
    }
  }

  lemma UnblockNothing(cbsz: nat)
    requires cbsz > 0
    ensures UnblockSpec(cbsz, []) == []
  {
  }

  lemma UnblockSpecLast(cbsz: nat, d: seq<byte>)
    requires 0 < |d| <= cbsz
    ensures UnblockSpec(cbsz, d) == RTrim(d) + [NL]
  {
    assert |d| == cbsz ==> d[..cbsz] == d && d[cbsz..] == [];
  }

  lemma UnblockSpecFirst(cbsz: nat, rec: seq<byte>, rest: seq<byte>)
    requires cbsz > 0 && |rec| == cbsz
    ensures UnblockSpec(cbsz, rec + rest) == (RTrim(rec) + [NL]) + UnblockSpec(cbsz, rest)
  {
    assert (rec + rest)[..cbsz] == rec && (rec + rest)[cbsz..] == rest;
  }

  /** One more record, short or whole, after whole ones. */
  lemma {:induction false} UnblockSpecAppend(cbsz: nat, s: seq<byte>, d: seq<byte>)
    requires cbsz > 0 && Whole(cbsz, |s|) == |s| && 0 < |d| <= cbsz
    ensures UnblockSpec(cbsz, s + d) == UnblockSpec(cbsz, s) + (RTrim(d) + [NL])
    decreases |s|
  {
    if s == [] {
      UnblockSpecLast(cbsz, d);
      assert [] + d == d;
    } else {
      var rec, rest := s[..cbsz], s[cbsz..];
      assert s == rec + rest;
      UnblockSpecAppend(cbsz, rest, d);
      UnblockSpecFirst(cbsz, rec, rest);
      UnblockSpecFirst(cbsz, rec, rest + d);
      Assoc(rec, rest, d);
      Assoc(RTrim(rec) + [NL], UnblockSpec(cbsz, rest), RTrim(d) + [NL]);
    }
  }

  lemma SplitAt(s: seq<byte>, k: nat) returns (a: seq<byte>, b: seq<byte>)
    requires k <= |s|
    ensures a == s[..k] && b == s[k..] && s == a + b
  {
    a, b := s[..k], s[k..];
  }

  lemma UnblockSpecAt(cbsz: nat, s: seq<byte>, k: nat)
    requires cbsz > 0 && Whole(cbsz, k) == k < |s| <= k + cbsz
    ensures UnblockSpec(cbsz, s) == UnblockSpec(cbsz, s[..k]) + (RTrim(s[k..]) + [NL])
  {
    var a, b := SplitAt(s, k);
    UnblockSpecAppend(cbsz, a, b);
  }

  /** conv=unblock is the lines put out and the last, short one. */
  lemma UnblockSpecSplits(cbsz: nat, s: seq<byte>)
    requires cbsz > 0
    ensures UnblockSpec(cbsz, s) == Lines(cbsz, s, Whole(cbsz, |s|)) + ClosingLine(cbsz, s)
  {
    var k := Whole(cbsz, |s|);
    WholeWhole(cbsz, |s|);
    UnblockSpecPrefix(cbsz, s, k, s[..k]);
    if k == |s| {
      assert s[..k] == s;
    } else {
      UnblockSpecAt(cbsz, s, k);
    }
  }

  // ---------------------------------------------------------------- round trips

  /** Newline-terminated text whose lines fit a record and do not end in a blank. */
  predicate CleanText(cbsz: nat, s: seq<byte>)
    decreases |s|
  {
    s == [] ||
    var e := LineEnd(s);
    e < |s| && e <= cbsz && (e > 0 ==> s[e - 1] != SP) && CleanText(cbsz, s[e + 1..])
  }

  function TrimAll(lines: seq<seq<byte>>): (r: seq<seq<byte>>)
    ensures |r| == |lines|
  {
    if lines == [] then [] else [RTrim(lines[0])] + TrimAll(lines[1..])
  }

  /** The text made of the given lines. */
  function Text(lines: seq<seq<byte>>): seq<byte> {
    if lines == [] then [] else lines[0] + [NL] + Text(lines[1..])
  }

  lemma RTrimPad(cbsz: nat, line: seq<byte>)
    requires |line| <= cbsz
    ensures RTrim(Pad(NoTable, cbsz, line)) == RTrim(line)
  {
    var p, n := Pad(NoTable, cbsz, line), TextEnd(line);
    TextEndEnds(line);
    TextEndIs(p, n);
    assert p[..n] == line[..n];
  }

  lemma {:induction false} UnblockRender(cbsz: nat, lines: seq<seq<byte>>)
    requires cbsz > 0 && AllFit(cbsz, lines)
    ensures UnblockSpec(cbsz, Render(NoTable, cbsz, lines)) == Text(TrimAll(lines))
  {
    if lines != [] {
      RenderFirst(NoTable, cbsz, lines);
      RTrimPad(cbsz, lines[0]);
      UnblockRender(cbsz, lines[1..]);
      var p, r := Pad(NoTable, cbsz, lines[0]), Render(NoTable, cbsz, lines[1..]);
      assert (p + r)[..cbsz] == p && (p + r)[cbsz..] == r;
    }
  }

  /** Two texts are equal when their first lines and the rest of them are. */
  lemma FirstLineOf(line: seq<byte>, rest: seq<byte>, s: seq<byte>)
    requires NoNewline(line)
    ensures line + [NL] + rest == s <==>
      LineEnd(s) < |s| && line == s[..LineEnd(s)] && rest == s[LineEnd(s) + 1..]
  {
    var t := line + [NL] + rest;
    assert t[..|line|] == line && t[|line| + 1..] == rest;
    LineEndIs(t, |line|);
    FirstLine(s);
  }

  /** A first line survives cutting and trimming when it is clean. */
  lemma CleanLine(cbsz: nat, line: seq<byte>)
    ensures RTrim(Cut(cbsz, line)) == line <==> |line| <= cbsz && (line != [] ==> line[|line| - 1] != SP)
    ensures NoNewline(line) ==> NoNewline(RTrim(Cut(cbsz, line)))
  {
    TextEndEnds(Cut(cbsz, line));
    if |line| <= cbsz && (line != [] ==> line[|line| - 1] != SP) {
      assert Cut(cbsz, line) == line;
      TextEndIs(line, |line|);
    }
  }

  lemma TrimmedTextStep(lines: seq<seq<byte>>)
    requires lines != []
    ensures Text(TrimAll(lines)) == RTrim(lines[0]) + [NL] + Text(TrimAll(lines[1..]))
  {
    assert TrimAll(lines)[1..] == TrimAll(lines[1..]);
  }

  /** `s` with its first line cut and trimmed, followed by `rest`, is `s` when that line is clean. */
  lemma CleanFirstLine(cbsz: nat, s: seq<byte>, rest: seq<byte>)
    ensures RTrim(Cut(cbsz, s[..LineEnd(s)])) + [NL] + rest == s <==>
      && LineEnd(s) < |s| && LineEnd(s) <= cbsz && (LineEnd(s) > 0 ==> s[LineEnd(s) - 1] != SP)
      && rest == s[LineEnd(s) + 1..]
  {
    FirstLine(s);
    CleanLine(cbsz, s[..LineEnd(s)]);
    FirstLineOf(RTrim(Cut(cbsz, s[..LineEnd(s)])), rest, s);
  }

  lemma {:induction false} TrimmedTextIsText(cbsz: nat, s: seq<byte>)
    ensures Text(TrimAll(AllLines(cbsz, s))) == s <==> CleanText(cbsz, s)
    decreases |s|
  {
    if s != [] {
      var e, all := LineEnd(s), AllLines(cbsz, s);
      assert all[0] == Cut(cbsz, s[..e]);
      TrimmedTextStep(all);
      CleanFirstLine(cbsz, s, Text(TrimAll(all[1..])));
      if e < |s| {
        assert all[1..] == AllLines(cbsz, s[e + 1..]);
        TrimmedTextIsText(cbsz, s[e + 1..]);
      }
    }
  }

  /** conv=unblock undoes conv=block on clean text, and on nothing else. */
  lemma UnblockUndoesBlock(cbsz: nat, s: seq<byte>)
    requires cbsz > 0
    ensures UnblockSpec(cbsz, BlockSpec(NoTable, cbsz, s)) == s <==> CleanText(cbsz, s)
  {
    UnblockRender(cbsz, AllLines(cbsz, s));
    TrimmedTextIsText(cbsz, s);
  }

  /** The trimmed records of `x`. */
  function TrimmedRecords(cbsz: nat, x: seq<byte>): (r: seq<seq<byte>>)
    requires cbsz > 0
    ensures AllFit(cbsz, r)
    decreases |x|
  {
    if x == [] then []
    else if |x| < cbsz then [RTrim(x)]
    else [RTrim(x[..cbsz])] + TrimmedRecords(cbsz, x[cbsz..])
  }

  lemma {:induction false} UnblockIsText(cbsz: nat, x: seq<byte>)
    requires cbsz > 0
    ensures UnblockSpec(cbsz, x) == Text(TrimmedRecords(cbsz, x))
    decreases |x|
  {
    if |x| >= cbsz {
      UnblockIsText(cbsz, x[cbsz..]);
      assert TrimmedRecords(cbsz, x)[1..] == TrimmedRecords(cbsz, x[cbsz..]);
    }
  }

  function Newlines(s: seq<byte>): nat {
    if s == [] then 0 else (if s[0] == NL then 1 else 0) + Newlines(s[1..])
  }

  lemma {:induction false} NewlinesAppend(a: seq<byte>, b: seq<byte>)
    ensures Newlines(a + b) == Newlines(a) + Newlines(b)
  {
    if a == [] {
      assert a + b == b;
    } else {
      assert (a + b)[1..] == a[1..] + b;
      NewlinesAppend(a[1..], b);
    }
  }

  lemma {:induction false} NewlinesNone(a: seq<byte>)
    ensures Newlines(a) == 0 <==> NoNewline(a)
  {
    if a != [] {
      assert a == [a[0]] + a[1..];
      NewlinesNone(a[1..]);
    }
  }

  lemma {:induction false} NewlinesRTrim(s: seq<byte>)
    ensures Newlines(RTrim(s)) == Newlines(s)
  {
    var n := TextEnd(s);
    TextEndEnds(s);
    NewlinesAppend(s[..n], s[n..]);
    NewlinesNone(s[n..]);
    assert s == s[..n] + s[n..];
  }

  /** The newlines of a text: one for each line, and those inside the lines. */
  lemma {:induction false} NewlinesText(cbsz: nat, x: seq<byte>)
    requires cbsz > 0
    ensures Newlines(Text(TrimmedRecords(cbsz, x))) == |TrimmedRecords(cbsz, x)| + Newlines(x)
    decreases |x|
  {
    assert Newlines([NL]) == 1;
    if x != [] {
      var first := if |x| < cbsz then x else x[..cbsz];
      var rest := x[|first|..];
      var lines := TrimmedRecords(cbsz, x);
      assert lines[1..] == TrimmedRecords(cbsz, rest);
      assert x == first + rest;
      NewlinesText(cbsz, rest);
      NewlinesRTrim(first);
      NewlinesAppend(lines[0] + [NL], Text(lines[1..]));
      NewlinesAppend(lines[0], [NL]);
      NewlinesAppend(first, rest);
    }
  }

  lemma NewlinesOfLine(line: seq<byte>, rest: seq<byte>)
    requires NoNewline(line)
    ensures Newlines(line + [NL] + rest) == 1 + Newlines(rest)
  {
    NewlinesAppend(line + [NL], rest);
    NewlinesAppend(line, [NL]);
    NewlinesNone(line);
    assert Newlines([NL]) == 1;
  }

  /** A text that is empty or ends in a newline has as many lines as newlines. */
  lemma {:induction false} AllLinesCount(cbsz: nat, s: seq<byte>)
    requires s != [] ==> s[|s| - 1] == NL
    ensures |AllLines(cbsz, s)| == Newlines(s)
    decreases |s|
  {
    if s != [] {
      AllLinesFirst(cbsz, s);
      FirstLine(s);
      NewlinesOfLine(s[..LineEnd(s)], s[LineEnd(s) + 1..]);
      AllLinesCount(cbsz, s[LineEnd(s) + 1..]);
    }
  }

  lemma {:induction false} TextEndsInNewline(lines: seq<seq<byte>>)
    ensures lines != [] ==> Text(lines) != [] && Text(lines)[|Text(lines)| - 1] == NL
  {
    if lines != [] {
      TextEndsInNewline(lines[1..]);
    }
  }

  lemma {:induction false} RenderSize(tab: Table, cbsz: nat, lines: seq<seq<byte>>)
    requires ValidTable(tab) && AllFit(cbsz, lines)
    ensures |Render(tab, cbsz, lines)| == cbsz * |lines|
  {
    if lines != [] {
      RenderSize(tab, cbsz, lines[..|lines| - 1]);
      MulSucc(cbsz, |lines| - 1);
    }
  }

  /** `x` is no longer than its records, and as long as them only when it consists of whole ones. */
  lemma {:induction false} RecordsCover(cbsz: nat, x: seq<byte>)
    requires cbsz > 0
    ensures Covers(cbsz, |TrimmedRecords(cbsz, x)|, |x|)
    decreases |x|
  {
    if |x| >= cbsz {
      RecordsCover(cbsz, x[cbsz..]);
      CoversOneMore(cbsz, |TrimmedRecords(cbsz, x[cbsz..])|, |x| - cbsz);
    } else if x != [] {
      assert |TrimmedRecords(cbsz, x)| == 1;
    }
  }

  predicate Covers(cbsz: nat, records: nat, size: nat)
    requires cbsz > 0
  {
    size <= cbsz * records && (size == cbsz * records <==> size % cbsz == 0)
  }

  lemma CoversOneMore(cbsz: nat, records: nat, size: nat)
    requires cbsz > 0 && Covers(cbsz, records, size)
    ensures Covers(cbsz, records + 1, size + cbsz)
  {
    ModMinus(cbsz, size + cbsz);
    MulSucc(cbsz, records);
  }

  lemma ModMinus(m: nat, n: nat)
    requires 0 < m <= n
    ensures (n - m) % m == n % m
  {
    var q, r, q', r' := n / m, n % m, (n - m) / m, (n - m) % m;
    var d := q - 1 - q';
    assert m * d == r' - r by {
      assert m * q == n - r && m * q' == n - m - r';
      assert m * (q - 1 - q') == m * q - m - m * q';
    }
    assert d == 0 by {
      MulSmall(m, d);
    }
  }

  lemma MulSmall(m: int, d: int)
    requires -m < m * d < m
    ensures d == 0
  {
    assert d >= 1 ==> m * d >= m;
    assert d <= -1 ==> m * d + m <= 0;
  }

  lemma MulSucc(m: nat, n: nat)
    ensures m * (n + 1) == m * n + m
  {
  }

  /** Blocking a text record by record. */
  lemma BlockFirst(cbsz: nat, line: seq<byte>, rest: seq<byte>)
    requires NoNewline(line) && |line| <= cbsz
    ensures BlockSpec(NoTable, cbsz, line + [NL] + rest) == Pad(NoTable, cbsz, line) + BlockSpec(NoTable, cbsz, rest)
  {
    var t := line + [NL] + rest;
    LineEndIs(t, |line|);
    assert t[..|line|] == line && t[|line| + 1..] == rest;
    var all := AllLines(cbsz, t);
    assert all[0] == line && all[1..] == AllLines(cbsz, rest);
    RenderFirst(NoTable, cbsz, all);
  }

  lemma BlockUndoesUnblockFirst(cbsz: nat, rec: seq<byte>, rest: seq<byte>)
    requires cbsz > 0 && |rec| == cbsz && NoNewline(rec)
    requires BlockSpec(NoTable, cbsz, UnblockSpec(cbsz, rest)) == rest
    ensures BlockSpec(NoTable, cbsz, UnblockSpec(cbsz, rec + rest)) == rec + rest
  {
    assert (rec + rest)[..cbsz] == rec && (rec + rest)[cbsz..] == rest;
    BlockFirst(cbsz, RTrim(rec), UnblockSpec(cbsz, rest));
    TextEndEnds(rec);
    assert Pad(NoTable, cbsz, RTrim(rec)) == rec;
  }

  lemma {:induction false} BlockUndoesUnblockWhole(cbsz: nat, x: seq<byte>)
    requires cbsz > 0 && |x| % cbsz == 0 && NoNewline(x)
    ensures BlockSpec(NoTable, cbsz, UnblockSpec(cbsz, x)) == x
    decreases |x|
  {
    if x != [] {
      ModMinus(cbsz, |x|);
      BlockUndoesUnblockWhole(cbsz, x[cbsz..]);
      BlockUndoesUnblockFirst(cbsz, x[..cbsz], x[cbsz..]);
      assert x == x[..cbsz] + x[cbsz..];
    }
  }

  lemma LongerThan(cbsz: nat, records: nat, newlines: nat, size: nat)
    requires cbsz > 0 && Covers(cbsz, records, size) && (size % cbsz != 0 || newlines > 0)
    ensures size != cbsz * (records + newlines)
  {
    assert cbsz * (records + newlines) == cbsz * records + cbsz * newlines;
    assert newlines > 0 ==> cbsz * newlines > 0;
  }

  lemma SizesDiffer(cbsz: nat, x: seq<byte>)
    requires cbsz > 0 && !(|x| % cbsz == 0 && NoNewline(x))
    ensures |x| != cbsz * (|TrimmedRecords(cbsz, x)| + Newlines(x))
  {
    RecordsCover(cbsz, x);
    NewlinesNone(x);
    LongerThan(cbsz, |TrimmedRecords(cbsz, x)|, Newlines(x), |x|);
  }

  lemma BlockedTextSize(cbsz: nat, x: seq<byte>)
    requires cbsz > 0
    ensures |BlockSpec(NoTable, cbsz, UnblockSpec(cbsz, x))| == cbsz * (|TrimmedRecords(cbsz, x)| + Newlines(x))
  {
    UnblockIsText(cbsz, x);
    TextEndsInNewline(TrimmedRecords(cbsz, x));
    AllLinesCount(cbsz, UnblockSpec(cbsz, x));
    NewlinesText(cbsz, x);
    RenderSize(NoTable, cbsz, AllLines(cbsz, UnblockSpec(cbsz, x)));
  }

  /** conv=block undoes conv=unblock on whole records without newlines, and on nothing else. */
  lemma BlockUndoesUnblock(cbsz: nat, x: seq<byte>)
    requires cbsz > 0
    ensures BlockSpec(NoTable, cbsz, UnblockSpec(cbsz, x)) == x <==> |x| % cbsz == 0 && NoNewline(x)
  {
    if |x| % cbsz == 0 && NoNewline(x) {
      BlockUndoesUnblockWhole(cbsz, x);
    } else {
      BlockedTextSize(cbsz, x);
      SizesDiffer(cbsz, x);
    }
  }
}
