/** The cluster summary of a new cylinder group: how many runs of free blocks there are of each length. */
module ClusterSum {
  import opened BlockMap
  import opened Runs

  /** The first `n` bits of the map. */
  function BitsOf(cp: seq<bv8>, n: nat): (r: seq<bool>)
    requires n <= 8 * |cp|
    ensures |r| == n
    ensures forall i :: 0 <= i < n ==> r[i] == IsSet(cp, i)
  {
    seq(n, i requires 0 <= i < n => IsSet(cp, i))
  }

  /** The scan is at bit `i`: `byte` is the byte that holds it and `bit` is its mask. */
  ghost predicate ScanAt(bytes: seq<bv8>, i: nat, byteNo: nat, byte: bv8, bit: bv8) {
    byteNo == i / 8 < |bytes| && byte == bytes[byteNo] && bit == Mask(i % 8)
  }

  lemma ScanStarts(bytes: seq<bv8>)
    requires |bytes| > 0
    ensures ScanAt(bytes, 0, 0, bytes[0], 1)
  {
  }

  /** The tested bit, and the next position. */
  lemma ScanStep(bytes: seq<bv8>, i: nat, byteNo: nat, byte: bv8, bit: bv8)
    requires ScanAt(bytes, i, byteNo, byte, bit) && (i + 1) / 8 < |bytes|
    ensures byte & bit != 0 <==> IsSet(bytes, i)
    ensures if i % 8 != 7 then ScanAt(bytes, i + 1, byteNo, byte, bit << 1)
            else byteNo + 1 < |bytes| && ScanAt(bytes, i + 1, byteNo + 1, bytes[byteNo + 1], 1)
  {
    assert i % 8 != 7 ==> Mask(i % 8) << 1 == Mask((i + 1) % 8) && (i + 1) / 8 == i / 8;
  }

  /** `sum` with one more run of `run` blocks, counted under its length cut to `cap`. */
  function Counted(sum: seq<int>, run: nat, cap: nat): (r: seq<int>)
    requires 0 < run && 0 < cap < |sum|
    ensures |r| == |sum| && forall k :: 0 <= k < |sum| ==> r[k] == sum[k] + if Clamp(run, cap) == k then 1 else 0
  {
    var len := if run > cap then cap else run;
    sum[len := sum[len] + 1]
  }

  /** `sum` counts the runs that are known to have ended once the bits before `i` have been seen. */
  ghost predicate Tally(sum: seq<int>, bits: seq<bool>, cap: nat, i: nat)
    requires i <= |bits|
  {
    forall k :: 0 <= k < |sum| ==> sum[k] == if i == 0 then 0 else RunCount(bits, cap, k, i - 1)
  }

  lemma FirstBit(sum: seq<int>, bits: seq<bool>, cap: nat)
    requires forall k :: 0 <= k < |sum| ==> sum[k] == 0
    ensures RunBefore(bits, 0) == 0 && Tally(sum, bits, cap, 0)
  {
  }

  /** A clear bit ends the run before it. */
  lemma NextBit(sum: seq<int>, bits: seq<bool>, cap: nat, i: nat)
    requires i < |bits| && 0 < cap < |sum| && Tally(sum, bits, cap, i)
    ensures RunBefore(bits, i + 1) == if bits[i] then RunBefore(bits, i) + 1 else 0
    ensures var run := RunBefore(bits, i);
      Tally(if bits[i] || run == 0 then sum else Counted(sum, run, cap), bits, cap, i + 1)
  {
  }

  /** So does the end of the map. */
  lemma LastRun(sum: seq<int>, bits: seq<bool>, cap: nat, k: nat)
    requires k < |sum| && 0 < cap < |sum| && Tally(sum, bits, cap, |bits|)
    ensures var run := RunBefore(bits, |bits|);
      (if run == 0 then sum else Counted(sum, run, cap))[k] == Histogram(bits, cap, k)
  {
  }

  /** Walk over the map bit by bit, one byte at a time; the byte behind the last bit may be fetched. */
  method Summarise(cp: array<bv8>, n: nat, zeros: seq<int>, cap: nat) returns (sum: seq<int>)
    requires n / 8 < cp.Length && 0 < cap < |zeros| && forall k :: 0 <= k < |zeros| ==> zeros[k] == 0
    ensures |sum| == |zeros| && forall k :: 0 <= k < |sum| ==> sum[k] == Histogram(BitsOf(cp[..], n), cap, k)
  {
    hide RunBefore, ScanAt, Histogram, BitsOf, Counted, IsSet, Tally;
    ghost var bytes := cp[..];
    ghost var bits := BitsOf(bytes, n);
    var i, byteNo := 0, 0;
    var byte, bit: bv8, run: nat := cp[0], 1, 0;
    sum := zeros;
    ScanStarts(bytes);
    FirstBit(sum, bits, cap);
    while i < n
      invariant i <= n && ScanAt(bytes, i, byteNo, byte, bit)
      invariant run == RunBefore(bits, i) && |sum| == |zeros| && Tally(sum, bits, cap, i)
    {
      ScanStep(bytes, i, byteNo, byte, bit);
      NextBit(sum, bits, cap, i);
      if byte & bit != 0 {
        run := run + 1;
      } else if run != 0 {
        sum := Counted(sum, run, cap);
        run := 0;
      }
      if i % 8 != 7 {
        bit := bit << 1;
      } else {
        byteNo := byteNo + 1;
        byte := cp[byteNo];
        bit := 1;
      }
      i := i + 1;
    }
    forall k | 0 <= k < |sum| {
      LastRun(sum, bits, cap, k);
    }
    if run != 0 {
      sum := Counted(sum, run, cap);
    }
  }
}
