/** The Internet checksum (section 1 of RFC 1071) and the echo request that carries it. */
module InCksum {
  import opened Common

  datatype Order = Little | Big

  /** Two bytes in memory, read as a word. */
  function Word(order: Order, a: byte, b: byte): (w: nat)
    ensures w < 0x1_0000
  {
    if order == Little then a as nat + 256 * b as nat else 256 * a as nat + b as nat
  }

  /** The `k`th word of a message; a missing last byte counts as 0. */
  function WordAt(order: Order, msg: seq<byte>, k: nat): (w: nat)
    requires 2 * k < |msg|
    ensures w < 0x1_0000
  {
    Word(order, msg[2 * k], if 2 * k + 1 < |msg| then msg[2 * k + 1] else 0)
  }

  function Words(msg: seq<byte>): nat {
    (|msg| + 1) / 2
  }

  /** The sum of the first `n` words. */
  function Sum(order: Order, msg: seq<byte>, n: nat): (s: nat)
    requires n <= Words(msg)
    ensures s <= n * 0xFFFF
  {
    if n == 0 then 0 else Sum(order, msg, n - 1) + WordAt(order, msg, n - 1)
  }

  /** Add the carries back in, twice, and keep 16 bits. */
  function Fold(s: nat): (f: nat)
    ensures f < 0x1_0000
  {
    var once := s / 0x1_0000 + s % 0x1_0000;
    (once + once / 0x1_0000) % 0x1_0000
  }

  /** A sum that fits the accumulator folds to its residue modulo 65535; only 0 folds to 0. */
  lemma FoldIs(s: nat)
    requires s < 0x8000_0000
    ensures Fold(s) % 0xFFFF == s % 0xFFFF && (Fold(s) == 0 <==> s == 0)
  {
    var hi, lo := s / 0x1_0000, s % 0x1_0000;
    var once := hi + lo;
    assert s == once + hi * 0xFFFF;
    Residue(once, hi);
    if once >= 0x1_0000 {
      assert Fold(s) == once - 0xFFFF;
      Residue(once - 0xFFFF, 1);
    }
  }

  lemma Residue(r: nat, k: nat)
    ensures (r + k * 0xFFFF) % 0xFFFF == r % 0xFFFF
  {
  }

  /** The checksum of a message as a word of the host. */
  function Checksum(order: Order, msg: seq<byte>): (c: nat)
    ensures c < 0x1_0000
  {
    0xFFFF - Fold(Sum(order, msg, Words(msg)))
  }

  predicate Short(msg: seq<byte>) {
    |msg| <= 65535
  }

  /** `in_cksum` on a little-endian host: its signed 32-bit accumulator never overflows. */
  method InCksum(msg: seq<byte>) returns (answer: nat)
    requires Short(msg)
    ensures answer == Checksum(Little, msg)
  {
    hide Fold;
    var nleft, w, sum := |msg|, 0, 0;
    while nleft > 1
      invariant 0 <= nleft == |msg| - 2 * w && 0 <= sum < 0x8000_0000
      invariant sum == Sum(Little, msg, w)
    {
      sum := sum + Word(Little, msg[2 * w], msg[2 * w + 1]);
      w := w + 1;
      nleft := nleft - 2;
    }
    if nleft == 1 {
      sum := sum + Word(Little, msg[2 * w], 0);
    }
    assert sum == Sum(Little, msg, Words(msg)) && sum < 0x8000_0000;
    FoldSteps(sum);
    sum := sum / 0x1_0000 + sum % 0x1_0000;
    sum := sum + sum / 0x1_0000;
    answer := 0xFFFF - sum % 0x1_0000;
  }

  lemma FoldSteps(s: nat)
    ensures var once := s / 0x1_0000 + s % 0x1_0000; Fold(s) == (once + once / 0x1_0000) % 0x1_0000
  {
  }

  // ---------------------------------------------------------------- byte by byte

  /** What the byte at place `i` counts for: the first of two bytes is the low one on a little-endian host. */
  function Weight(order: Order, i: nat): nat {
    if i % 2 == 0 then (if order == Little then 1 else 256) else if order == Little then 256 else 1
  }

  /** The sum of all bytes, with their weights. */
  function ByteSum(order: Order, msg: seq<byte>): nat {
    if msg == [] then 0
    else ByteSum(order, msg[..|msg| - 1]) + msg[|msg| - 1] as nat * Weight(order, |msg| - 1)
  }

  /** The sum of the words of a message is that of its bytes, the last one of an odd message included. */
  lemma {:induction false} SumIsBytes(order: Order, msg: seq<byte>)
    ensures Sum(order, msg, (|msg| + 1) / 2) == ByteSum(order, msg)
  {
    if |msg| > 0 {
      SumIsBytes(order, msg[..|msg| - 1]);
      LastByte(order, msg, |msg| - 1);
    }
  }

  /** The last byte adds as much to the sum as it weighs. */
  lemma LastByte(order: Order, msg: seq<byte>, n: nat)
    requires |msg| == n + 1
    ensures Sum(order, msg, (n + 2) / 2) == Sum(order, msg[..n], (n + 1) / 2) + msg[n] as nat * Weight(order, n)
  {
    hide Sum;
    var front := msg[..n];
    SameWords(order, front, msg, n / 2);
    SumStep(order, msg, n / 2);
    if n % 2 == 1 {
      SumStep(order, front, n / 2);
      assert WordAt(order, msg, n / 2) == WordAt(order, front, n / 2) + msg[n] as nat * Weight(order, n);
    }
  }

  lemma {:induction false} SameWords(order: Order, front: seq<byte>, msg: seq<byte>, n: nat)
    requires front <= msg && 2 * n <= |front|
    ensures Sum(order, front, n) == Sum(order, msg, n)
  {
    if n > 0 {
      SameWords(order, front, msg, n - 1);
    }
  }

  /** An odd message has the checksum of the same message with a 0 byte behind it. */
  lemma OddIsPadded(order: Order, msg: seq<byte>)
    requires |msg| % 2 == 1
    ensures Checksum(order, msg) == Checksum(order, msg + [0])
  {
    hide Fold;
    var padded := msg + [0];
    SumIsBytes(order, msg);
    SumIsBytes(order, padded);
    assert padded[..|padded| - 1] == msg;
  }

  lemma {:induction false} ByteSumChanged(order: Order, msg: seq<byte>, i: nat, b: byte)
    requires i < |msg|
    ensures ByteSum(order, msg[i := b]) == ByteSum(order, msg) + (b as int - msg[i] as int) * Weight(order, i)
  {
    hide Weight;
    var n := |msg| - 1;
    var front := msg[..n];
    if i < n {
      assert msg[i := b][..n] == front[i := b];
      ByteSumChanged(order, front, i, b);
    } else {
      assert msg[i := b][..n] == front;
      var w := Weight(order, n);
      assert (b as int - msg[n] as int) * w == b as int * w - msg[n] as int * w;
    }
  }

  /** Changing a byte, wherever it is, changes the sum of the message by its weight. */
  lemma ByteCounts(order: Order, msg: seq<byte>, i: nat, b: byte)
    requires i < |msg|
    ensures Sum(order, msg[i := b], Words(msg)) ==
      Sum(order, msg, Words(msg)) + (b as int - msg[i] as int) *
        (if i % 2 == 0 then (if order == Little then 1 else 256) else if order == Little then 256 else 1)
  {
    SumIsBytes(order, msg);
    SumIsBytes(order, msg[i := b]);
    ByteSumChanged(order, msg, i, b);
  }

  /** So it shows in the checksum. */
  lemma ChangeShows(order: Order, msg: seq<byte>, i: nat, b: byte)
    requires Short(msg) && i < |msg| && b != msg[i]
    ensures Checksum(order, msg[i := b]) != Checksum(order, msg)
  {
    hide Fold, Sum;
    var was, now := Sum(order, msg, Words(msg)), Sum(order, msg[i := b], Words(msg[i := b]));
    ByteCounts(order, msg, i, b);
    SumFits(order, msg);
    SumFits(order, msg[i := b]);
    FoldIs(was);
    FoldIs(now);
    if now % 0xFFFF == was % 0xFFFF {
      NoMultiple(was, now);
    }
  }

  lemma NoMultiple(a: nat, b: nat)
    requires a % 0xFFFF == b % 0xFFFF && -0xFFFF < b - a < 0xFFFF
    ensures a == b
  {
  }

  /** A message of one byte, and of three. */
  lemma OddChecksums()
    ensures Checksum(Little, [1]) == 0xFFFE && Checksum(Big, [1]) == 0xFEFF
    ensures Checksum(Little, [1, 2, 3]) == 0xFDFB && Checksum(Big, [1, 2, 3]) == 0xFBFD
    ensures Checksum(Little, [0xFF, 0xFF, 1]) == 0xFFFE
  {
    hide Checksum, WordAt, Fold;
    ShortWords();
    ShortFolds();
    ThreeBytes(Little, [1, 2, 3], 0x201, 3);
    ThreeBytes(Big, [1, 2, 3], 0x102, 0x300);
    ThreeBytes(Little, [0xFF, 0xFF, 1], 0xFFFF, 1);
    OneByte(Little, [1], 1);
    OneByte(Big, [1], 0x100);
  }

  lemma ShortWords()
    ensures WordAt(Little, [1], 0) == 1 && WordAt(Big, [1], 0) == 0x100
    ensures WordAt(Little, [1, 2, 3], 0) == 0x201 && WordAt(Little, [1, 2, 3], 1) == 3
    ensures WordAt(Big, [1, 2, 3], 0) == 0x102 && WordAt(Big, [1, 2, 3], 1) == 0x300
    ensures WordAt(Little, [0xFF, 0xFF, 1], 0) == 0xFFFF && WordAt(Little, [0xFF, 0xFF, 1], 1) == 1
  {
  }

  lemma ShortFolds()
    ensures Fold(1) == 1 && Fold(0x100) == 0x100 && Fold(0x204) == 0x204 && Fold(0x402) == 0x402
    ensures Fold(0x1_0000) == 1
  {
  }

  lemma OneByte(order: Order, msg: seq<byte>, w: nat)
    requires |msg| == 1 && WordAt(order, msg, 0) == w
    ensures Checksum(order, msg) == 0xFFFF - Fold(w)
  {
    hide Fold;
    SumStep(order, msg, 0);
    assert Sum(order, msg, 0) == 0;
  }

  lemma ThreeBytes(order: Order, msg: seq<byte>, w0: nat, w1: nat)
    requires |msg| == 3 && WordAt(order, msg, 0) == w0 && WordAt(order, msg, 1) == w1
    ensures Checksum(order, msg) == 0xFFFF - Fold(w0 + w1)
  {
    hide Fold;
    assert Sum(order, msg, 0) == 0;
    SumStep(order, msg, 0);
    SumStep(order, msg, 1);
  }

  lemma SumStep(order: Order, msg: seq<byte>, n: nat)
    requires 2 * n < |msg|
    ensures Sum(order, msg, n + 1) == Sum(order, msg, n) + WordAt(order, msg, n)
  {
  }

  /** The example of section 3 of RFC 1071. */
  lemma ChecksumOfRfc(msg: seq<byte>)
    requires msg == [0x00, 0x01, 0xF2, 0x03, 0xF4, 0xF5, 0xF6, 0xF7]
    ensures Checksum(Big, msg) == 0x220D
  {
    hide Fold, Sum;
    assert WordAt(Big, msg, 0) == 0x0001 && WordAt(Big, msg, 1) == 0xF203;
    assert WordAt(Big, msg, 2) == 0xF4F5 && WordAt(Big, msg, 3) == 0xF6F7;
    SumStep(Big, msg, 0);
    SumStep(Big, msg, 1);
    SumStep(Big, msg, 2);
    SumStep(Big, msg, 3);
    NoWords(Big, msg);
    CarriesBack();
  }

  lemma NoWords(order: Order, msg: seq<byte>)
    ensures Sum(order, msg, 0) == 0
  {
  }

  lemma CarriesBack()
    ensures Fold(0x2_DDF0) == 0xDDF2 && Fold(0x1_0000) == 1 && Fold(0xFFFF_FFFF) == 0xFFFF && Fold(0x1_FFFF) == 1
  {
  }

  // ---------------------------------------------------------------- a message verifies itself

  /** The message with the word `c` stored at position `2 * k`. */
  function Stored(order: Order, msg: seq<byte>, k: nat, c: nat): (r: seq<byte>)
    requires 2 * k + 1 < |msg| && c < 0x1_0000
    ensures |r| == |msg|
  {
    var lo, hi := (c % 256) as byte, (c / 256) as byte;
    if order == Little then msg[2 * k := lo][2 * k + 1 := hi] else msg[2 * k := hi][2 * k + 1 := lo]
  }

  lemma {:induction false} SumStored(order: Order, msg: seq<byte>, k: nat, c: nat, n: nat)
    requires n <= Words(msg) && 2 * k + 1 < |msg| && c < 0x1_0000
    ensures Sum(order, Stored(order, msg, k, c), n) ==
      Sum(order, msg, n) + if k < n then c - WordAt(order, msg, k) else 0
  {
    if n > 0 {
      SumStored(order, msg, k, c, n - 1);
      var was, now := WordAt(order, msg, n - 1), WordAt(order, Stored(order, msg, k, c), n - 1);
      assert now == if n - 1 == k then c else was;
    }
  }

  lemma SumFits(order: Order, msg: seq<byte>)
    requires Short(msg)
    ensures Sum(order, msg, Words(msg)) < 0x8000_0000
  {
  }

  /** A residue and its complement add up to nothing. */
  lemma Complement(s: nat, f: nat)
    requires f < 0x1_0000 && f % 0xFFFF == s % 0xFFFF && (f == 0 <==> s == 0)
    ensures var t := s + (0xFFFF - f); t % 0xFFFF == 0 && t > 0
  {
    var q, r := s / 0xFFFF, s % 0xFFFF;
    var t := s + (0xFFFF - f);
    assert s == q * 0xFFFF + r;
    if f == 0xFFFF {
      Residue(0, q);
    } else {
      assert f == r;
      Residue(0, q + 1);
    }
  }

  /** Storing the checksum of a message in a word of it that was 0 makes the message check as 0. */
  lemma StoredChecks(order: Order, msg: seq<byte>, k: nat)
    requires Short(msg) && 2 * k + 1 < |msg| && WordAt(order, msg, k) == 0
    ensures Checksum(order, Stored(order, msg, k, Checksum(order, msg))) == 0
  {
    hide Fold, Sum, WordAt, Stored;
    var s := Sum(order, msg, Words(msg));
    var c := Checksum(order, msg);
    SumStored(order, msg, k, c, Words(msg));
    SumFits(order, msg);
    SumFits(order, Stored(order, msg, k, c));
    FoldIs(s);
    Complement(s, Fold(s));
    FoldIs(s + c);
  }

  // ---------------------------------------------------------------- byte order

  function Swap(w: nat): (r: nat)
    requires w < 0x1_0000
    ensures r < 0x1_0000
  {
    w / 256 + w % 256 * 256
  }

  lemma {:induction false} SumsAgree(msg: seq<byte>, n: nat)
    requires n <= Words(msg)
    ensures 256 * Sum(Little, msg, n) % 0xFFFF == Sum(Big, msg, n) % 0xFFFF
    ensures Sum(Little, msg, n) == 0 <==> Sum(Big, msg, n) == 0
  {
    if n > 0 {
      hide WordAt;
      SumsAgree(msg, n - 1);
      WordsSwapped(msg, n - 1);
      var l, b := WordAt(Little, msg, n - 1), WordAt(Big, msg, n - 1);
      SwapResidue(l, b);
      AddResidues(256 * Sum(Little, msg, n - 1), Sum(Big, msg, n - 1), 256 * l, b);
    }
  }

  lemma WordsSwapped(msg: seq<byte>, k: nat)
    requires 2 * k < |msg|
    ensures WordAt(Big, msg, k) == Swap(WordAt(Little, msg, k))
    ensures WordAt(Big, msg, k) == 0 <==> WordAt(Little, msg, k) == 0
  {
  }

  lemma SwapResidue(l: nat, b: nat)
    requires l < 0x1_0000 && b == Swap(l)
    ensures 256 * l % 0xFFFF == b % 0xFFFF
  {
    assert 256 * l == b + l / 256 * 0xFFFF;
    Residue(b, l / 256);
  }

  lemma AddResidues(a: nat, b: nat, c: nat, d: nat)
    requires a % 0xFFFF == b % 0xFFFF && c % 0xFFFF == d % 0xFFFF
    ensures (a + c) % 0xFFFF == (b + d) % 0xFFFF
  {
  }

  /** A host of either byte order stores the same two bytes. */
  lemma OrderDoesNotMatter(msg: seq<byte>, k: nat)
    requires Short(msg) && 2 * k + 1 < |msg|
    ensures Checksum(Big, msg) == Swap(Checksum(Little, msg))
    ensures Stored(Big, msg, k, Checksum(Big, msg)) == Stored(Little, msg, k, Checksum(Little, msg))
  {
    hide Fold, Sum, Swap, Stored;
    var l, b := Sum(Little, msg, Words(msg)), Sum(Big, msg, Words(msg));
    SumFits(Little, msg);
    SumFits(Big, msg);
    SumsAgree(msg, Words(msg));
    FoldIs(l);
    FoldIs(b);
    TimesResidue(Fold(l), l);
    SameWord(Fold(l), Fold(b));
    StoredSwapped(msg, k, Checksum(Little, msg));
  }

  lemma StoredSwapped(msg: seq<byte>, k: nat, c: nat)
    requires 2 * k + 1 < |msg| && c < 0x1_0000
    ensures Stored(Big, msg, k, Swap(c)) == Stored(Little, msg, k, c)
  {
    var s := Swap(c);
    assert s / 256 == c % 256 && s % 256 == c / 256;
  }

  lemma TimesResidue(f: nat, l: nat)
    requires f % 0xFFFF == l % 0xFFFF
    ensures 256 * f % 0xFFFF == 256 * l % 0xFFFF
  {
    var a, b, r := f / 0xFFFF, l / 0xFFFF, f % 0xFFFF;
    Residue(256 * r, 256 * a);
    Residue(256 * r, 256 * b);
  }

  /** Folded sums that agree up to a factor of 256 are swapped words. */
  lemma SameWord(f: nat, g: nat)
    requires f < 0x1_0000 && g < 0x1_0000 && 256 * f % 0xFFFF == g % 0xFFFF && (f == 0 <==> g == 0)
    ensures g == Swap(f) && 0xFFFF - g == Swap(0xFFFF - f)
  {
    hide Swap;
    SwapResidue(f, Swap(f));
    SwapComplement(f);
    OneWord(Swap(f), g);
  }

  lemma OneWord(a: nat, b: nat)
    requires a < 0x1_0000 && b < 0x1_0000 && a % 0xFFFF == b % 0xFFFF && (a == 0 <==> b == 0)
    ensures a == b
  {
  }

  lemma SwapComplement(w: nat)
    requires w < 0x1_0000
    ensures Swap(0xFFFF - w) == 0xFFFF - Swap(w) && (Swap(w) == 0 <==> w == 0)
  {
    var hi, lo := w / 256, w % 256;
    assert 0xFFFF - w == 256 * (255 - hi) + (255 - lo);
  }

  // ---------------------------------------------------------------- the echo request

  const ICMP_ECHO: byte := 8

  method PutWord(pack: array<byte>, i: nat, w: nat)
    requires i + 1 < pack.Length && w < 0x1_0000
    modifies pack
    ensures pack[..] == old(pack[..])[i := (w % 256) as byte][i + 1 := (w / 256) as byte]
  {
    pack[i] := (w % 256) as byte;
    pack[i + 1] := (w / 256) as byte;
  }

  /** The packet part of `pinger`: fill in the header and the time, and store the checksum of `cc` bytes. */
  method Pinger(pack: array<byte>, cc: nat, ident: nat, ntransmitted: nat, time: seq<byte>)
    requires 8 <= cc <= pack.Length && cc <= 65535 && ident < 0x1_0000 && (time == [] || |time| == 8 <= pack.Length - 8)
    modifies pack
    ensures Checksum(Little, pack[..cc]) == 0
    ensures pack[0] == 8 && pack[1] == 0
    ensures pack[4] as nat + 256 * pack[5] as nat == ident
    ensures pack[6] as nat + 256 * pack[7] as nat == ntransmitted % 0x1_0000
    ensures WordAt(Little, pack[..], 2) == ident && WordAt(Little, pack[..], 3) == ntransmitted % 0x1_0000
    ensures pack[8..8 + |time|] == time && pack[8 + |time|..] == old(pack[8 + |time|..])
  {
    hide Checksum, Stored;
    pack[0], pack[1] := ICMP_ECHO, 0;
    PutWord(pack, 2, 0);
    PutWord(pack, 6, ntransmitted % 0x1_0000);
    PutWord(pack, 4, ident);
    var i := 0;
    while i < |time|
      invariant 0 <= i <= |time| && forall k :: 0 <= k < i ==> pack[8 + k] == time[k]
      invariant forall k :: 0 <= k < pack.Length && !(8 <= k < 8 + i) ==> pack[k] == old(pack[k]) || k < 8
      invariant pack[0] == ICMP_ECHO && pack[1] == 0 && pack[2] == 0 && pack[3] == 0
      invariant WordAt(Little, pack[..], 2) == ident && WordAt(Little, pack[..], 3) == ntransmitted % 0x1_0000
    {
      pack[8 + i] := time[i];
      i := i + 1;
    }
    ghost var msg := pack[..cc];
    var sum := InCksum(pack[..cc]);
    StoredChecks(Little, msg, 1);
    PutWord(pack, 2, sum);
    StoredIs(msg, pack[..cc], sum);
  }

  lemma StoredIs(msg: seq<byte>, msg': seq<byte>, c: nat)
    requires |msg| > 3 && c < 0x1_0000 && msg' == msg[2 := (c % 256) as byte][3 := (c / 256) as byte]
    ensures msg' == Stored(Little, msg, 1, c)
  {
  }
}
