/** The rotational layout tables: for every cylinder and rotational position, a chain of its blocks packed
    into a table of one-byte distances. */
module Rotational {
  import opened Common

  /** `n` blocks are laid out over `cpc` cylinders; `rpos` gives the rotational position of each. */
  datatype Layout = Layout(n: nat, frag: nat, nspf: nat, spc: nat, cpc: nat, nrpos: nat, rpos: seq<nat>)
  {
    predicate Valid() {
      && frag > 0 && nspf > 0 && spc > 0 && n * frag * nspf <= cpc * spc
      && |rpos| == n && forall b :: 0 <= b < n ==> rpos[b] < nrpos
    }

    /** The cylinder of block `b`. */
    function Cyl(b: nat): nat
      requires Valid()
    {
      b * frag * nspf / spc
    }

    predicate In(cyl: nat, pos: nat, b: nat)
      requires Valid() && b < n
    {
      Cyl(b) == cyl && rpos[b] == pos
    }
  }

  lemma CylBelow(l: Layout, b: nat)
    requires l.Valid() && b < l.n
    ensures l.Cyl(b) < l.cpc
  {
    TimesBelow(b, l.n, l.frag);
    TimesBelow(b * l.frag, l.n * l.frag, l.nspf);
    QuotientBelow(b * l.frag * l.nspf, l.cpc, l.spc);
  }

  /** The blocks of a chain from `at` on, in increasing order. */
  function Chain(l: Layout, cyl: nat, pos: nat, at: nat): (r: seq<nat>)
    requires l.Valid() && at <= l.n
    decreases l.n - at
  {
    if at == l.n then []
    else if l.In(cyl, pos, at) then [at] + Chain(l, cyl, pos, at + 1)
    else Chain(l, cyl, pos, at + 1)
  }

  /** A chain holds exactly the blocks at its cylinder and position, each once, in increasing order: the
      chains partition the blocks. */
  lemma {:induction false} ChainIsClass(l: Layout, cyl: nat, pos: nat, at: nat, b: nat)
    requires l.Valid() && at <= b < l.n
    ensures b in Chain(l, cyl, pos, at) <==> l.In(cyl, pos, b)
    decreases l.n - at
  {
    ChainFrom(l, cyl, pos, at + 1);
    if at < b {
      ChainIsClass(l, cyl, pos, at + 1, b);
    }
  }

  lemma {:induction false} ChainFrom(l: Layout, cyl: nat, pos: nat, at: nat)
    requires l.Valid() && at <= l.n
    ensures forall i :: 0 <= i < |Chain(l, cyl, pos, at)| ==> at <= Chain(l, cyl, pos, at)[i] < l.n
    ensures forall i, j :: 0 <= i < j < |Chain(l, cyl, pos, at)| ==>
      Chain(l, cyl, pos, at)[i] < Chain(l, cyl, pos, at)[j]
    decreases l.n - at
  {
    if at < l.n {
      ChainFrom(l, cyl, pos, at + 1);
    }
  }

  /** The first block of a chain from `at` on, -1 for none. */
  function First(l: Layout, cyl: nat, pos: nat, at: nat): (b: int)
    requires l.Valid() && at <= l.n
    ensures b == -1 || at <= b < l.n
    decreases l.n - at
  {
    if at == l.n then -1 else if l.In(cyl, pos, at) then at else First(l, cyl, pos, at + 1)
  }

  /** The distance from block `b` to the next of its chain, 0 at the end. */
  function Gap(l: Layout, b: nat): (d: nat)
    requires l.Valid() && b < l.n
  {
    var next := First(l, l.Cyl(b), l.rpos[b], b + 1);
    if next == -1 then 0 else next - b
  }

  /** What a reader visits: from a block on, add the distances until one is 0. */
  function Walk(rotbl: seq<nat>, b: int): seq<int>
    decreases |rotbl| - b
  {
    if !(0 <= b < |rotbl|) then []
    else if rotbl[b] == 0 then [b]
    else [b] + Walk(rotbl, b + rotbl[b])
  }

  lemma {:induction false} ChainStarts(l: Layout, cyl: nat, pos: nat, at: nat)
    requires l.Valid() && at <= l.n
    ensures var b := First(l, cyl, pos, at);
      if b == -1 then Chain(l, cyl, pos, at) == []
      else l.In(cyl, pos, b) && Chain(l, cyl, pos, at) == Chain(l, cyl, pos, b) == [b] + Chain(l, cyl, pos, b + 1)
    decreases l.n - at
  {
    if at < l.n && !l.In(cyl, pos, at) {
      ChainStarts(l, cyl, pos, at + 1);
    }
  }

  /** Every distance of the chain from `at` on fits a byte. */
  ghost predicate GapsFit(l: Layout, cyl: nat, pos: nat, at: nat)
    requires l.Valid()
  {
    forall b :: at <= b < l.n && l.In(cyl, pos, b) ==> Gap(l, b) < 256
  }

  /** The table of distances, each cut to a byte. */
  ghost predicate Distances(l: Layout, rotbl: seq<nat>)
    requires l.Valid()
  {
    |rotbl| == l.n && forall b :: 0 <= b < l.n ==> rotbl[b] == Gap(l, b) % 256
  }

  lemma {:induction false} WalkFrom(l: Layout, cyl: nat, pos: nat, rotbl: seq<nat>, b: nat)
    requires l.Valid() && Distances(l, rotbl) && b < l.n && l.In(cyl, pos, b)
    ensures Walk(rotbl, b) == Chain(l, cyl, pos, b) <==> GapsFit(l, cyl, pos, b)
    decreases l.n - b
  {
    hide l.Cyl, GapsFit, Walk, Chain;
    var next, rest := First(l, cyl, pos, b + 1), Chain(l, cyl, pos, b + 1);
    ChainStarts(l, cyl, pos, b);
    ChainStarts(l, cyl, pos, b + 1);
    GapsFitNext(l, cyl, pos, b);
    WalkStep(rotbl, b);
    if next != -1 && Gap(l, b) < 256 {
      WalkFrom(l, cyl, pos, rotbl, next);
      SameTails(b, Walk(rotbl, next), rest);
    } else if next != -1 {
      SameTails(b, [], rest);
      SameTails(b, Walk(rotbl, b + rotbl[b]), rest);
      WalkStep(rotbl, b + rotbl[b]);
    }
  }

  lemma SameTails(b: int, s: seq<int>, t: seq<int>)
    ensures [b] + s == [b] + t <==> s == t
    ensures [b] + [] == [b]
  {
    assert ([b] + s)[1..] == s && ([b] + t)[1..] == t;
  }

  lemma WalkStep(rotbl: seq<nat>, b: nat)
    requires b < |rotbl|
    ensures Walk(rotbl, b) == if rotbl[b] == 0 then [b] else [b] + Walk(rotbl, b + rotbl[b])
    ensures Walk(rotbl, b)[0] == b
  {
  }

  lemma GapsFitNext(l: Layout, cyl: nat, pos: nat, b: nat)
    requires l.Valid() && b < l.n && l.In(cyl, pos, b)
    ensures var next := First(l, cyl, pos, b + 1);
      GapsFit(l, cyl, pos, b) <==> Gap(l, b) < 256 && (next == -1 || GapsFit(l, cyl, pos, next))
  {
    hide First, Gap, l.Cyl;
    NoneBetween(l, cyl, pos, b + 1);
  }

  lemma {:induction false} NoneBetween(l: Layout, cyl: nat, pos: nat, at: nat)
    requires l.Valid() && at <= l.n
    ensures var next := First(l, cyl, pos, at);
      forall b :: at <= b < l.n && l.In(cyl, pos, b) ==> next != -1 && next <= b
    decreases l.n - at
  {
    if at < l.n {
      NoneBetween(l, cyl, pos, at + 1);
    }
  }

  /** A walk from the table entry of a cylinder and position visits exactly the blocks there, in increasing
      order, if and only if no two neighbours of that chain are 256 or more blocks apart. */
  lemma WalkExact(l: Layout, cyl: nat, pos: nat, rotbl: seq<nat>)
    requires l.Valid() && Distances(l, rotbl)
    ensures Walk(rotbl, First(l, cyl, pos, 0)) == Chain(l, cyl, pos, 0) <==> GapsFit(l, cyl, pos, 0)
  {
    ChainStarts(l, cyl, pos, 0);
    NoneBetween(l, cyl, pos, 0);
    var b := First(l, cyl, pos, 0);
    if b != -1 {
      WalkFrom(l, cyl, pos, rotbl, b);
    }
  }

  /** Blocks of 4 KB in fragments of 512 bytes, a cylinder of two tracks of 2048 sectors, and 256 rotational
      positions: the blocks 0 and 256 share a chain, and the walk stops after the first. */
  lemma ByteTooSmall(l: Layout, rotbl: seq<nat>)
    requires l == Layout(512, 8, 1, 4096, 1, 256, seq(512, b => b % 256)) && Distances(l, rotbl)
    ensures l.Valid() && Walk(rotbl, First(l, 0, 0, 0)) == [0] && 256 in Chain(l, 0, 0, 0)
  {
    assert l.In(0, 0, 0) && l.In(0, 0, 256);
    ChainStarts(l, 0, 0, 1);
    NoneBetween(l, 0, 0, 1);
    ChainIsClass(l, 0, 0, 0, 256);
    WalkStep(rotbl, 0);
  }

  /** Build both tables, from the last block down to the first. */
  method BuildTables(l: Layout, postbl: array2<int>, rotbl: array<nat>)
    requires l.Valid() && postbl.Length0 == l.cpc && postbl.Length1 == l.nrpos && rotbl.Length == l.n
    modifies postbl, rotbl
    ensures forall cyl, pos :: 0 <= cyl < l.cpc && 0 <= pos < l.nrpos ==> postbl[cyl, pos] == First(l, cyl, pos, 0)
    ensures Distances(l, rotbl[..])
  {
    hide l.Cyl;
    forall cyl, pos | 0 <= cyl < l.cpc && 0 <= pos < l.nrpos {
      postbl[cyl, pos] := -1;
    }
    var i := (l.n - 1) * l.frag;
    ghost var k := l.n;
    while i >= 0
      invariant 0 <= k <= l.n && i == (k - 1) * l.frag
      invariant forall cyl, pos :: 0 <= cyl < l.cpc && 0 <= pos < l.nrpos ==> postbl[cyl, pos] == First(l, cyl, pos, k)
      invariant forall b :: k <= b < l.n ==> rotbl[b] == Gap(l, b) % 256
    {
      Quotient(k, l.frag);
      var blk := i / l.frag;
      CylBelow(l, blk);
      CylOf(l, blk, i);
      var cyl, pos := i * l.nspf / l.spc, l.rpos[blk];
      if postbl[cyl, pos] == -1 {
        rotbl[blk] := 0;
      } else {
        rotbl[blk] := (postbl[cyl, pos] - blk) % 256;
      }
      postbl[cyl, pos] := blk;
      i := i - l.frag;
      k := k - 1;
    }
    Quotient(k, l.frag);
  }

  lemma CylOf(l: Layout, blk: nat, i: nat)
    requires l.Valid() && i == blk * l.frag
    ensures i * l.nspf / l.spc == l.Cyl(blk)
  {
  }

  lemma Quotient(k: nat, m: nat)
    requires m > 0
    ensures var i := (k - 1) * m;
      i - m == (k - 2) * m && if k > 0 then i >= 0 && i / m == k - 1 else i < 0
  {
    if k > 0 {
      var i := (k - 1) * m;
      var q: int, w: int := i / m, m;
      var e: int := k - 1 - q;
      assert e * w == (k - 1) * w - q * w;
      assert e >= 1 ==> e * w >= w;
      assert e <= -1 ==> e * w <= -w;
    }
  }
}
