/** Addresses and masks of ipfw rules: `mask_bits`, and `fill_ip` reading back what `show_ipfw` prints. */
module IpfwAddr {
  import opened Common
  import opened CNumber

  // ---------------------------------------------------------------- masks

  const ALL_ONES := 0xFFFF_FFFF

  /** The mask whose first `n` bits are set. */
  function Prefix(n: nat): (m: nat)
    requires n <= 32
  {
    PowGrows(32 - n, 32);
    Pow2(32) - Pow2(32 - n)
  }

  /** What has been seen of the mask `m` after `i` steps: `mask` is still to come; below it there are `num`
      set bits, at the top, and nothing else. */
  ghost predicate Seen(m: nat, i: nat, mask: nat, found: bool, num: nat) {
    && num <= i <= 32 && (found <==> num > 0) && Pow2(i - num) <= Pow2(i)
    && m == mask * Pow2(i) + (Pow2(i) - Pow2(i - num))
  }

  lemma PowStep(i: nat)
    ensures Pow2(i + 1) == 2 * Pow2(i)
  {
  }

  lemma Halve(mask: nat, p: nat)
    ensures mask * p == mask / 2 * (2 * p) + mask % 2 * p
  {
    var q, b := mask / 2, mask % 2;
    assert (2 * q + b) * p == 2 * q * p + b * p;
    assert q * (2 * p) == 2 * q * p;
  }

  lemma SeenNext(m: nat, i: nat, mask: nat, found: bool, num: nat)
    requires Seen(m, i, mask, found, num) && i < 32
    ensures mask % 2 == 1 ==> Seen(m, i + 1, mask / 2, true, num + 1)
    ensures mask % 2 == 0 && !found ==> num == 0 && Seen(m, i + 1, mask / 2, false, 0)
  {
    hide Pow2;
    PowStep(i);
    Halve(mask, Pow2(i));
    PowGrows(i - num, i + 1);
  }

  /** A clear bit above a set one: this is no prefix. */
  lemma NoPrefix(m: nat, i: nat, mask: nat, num: nat, n: nat)
    requires Seen(m, i, mask, true, num) && i < 32 && mask % 2 == 0 && n <= 32
    ensures m != Prefix(n)
  {
    hide Pow2;
    var p, q := Pow2(i), mask / 2;
    var low: int := p - Pow2(i - num);
    PowGrows(i - num, i);
    PowStrictly(i - num, i);
    PowStep(i);
    PowSplits(i + 1, 32);
    Halve(mask, p);
    assert m == q * (2 * p) + low && 0 < low < p;
    var k := Pow2(32 - (i + 1));
    if 32 - n >= i + 1 {
      PowSplits(i + 1, 32 - n);
      NoSum(2 * p, k - Pow2(32 - n - (i + 1)), q, low);
      Spread(2 * p, k, Pow2(32 - n - (i + 1)));
    } else {
      PowGrows(32 - n, i);
      NoSum(2 * p, k, q, low + Pow2(32 - n));
    }
  }

  lemma PowStrictly(a: nat, b: nat)
    requires a < b
    ensures Pow2(a) < Pow2(b)
  {
    hide Pow2;
    PowGrows(a, b);
  }

  lemma Spread(p: int, k: int, l: int)
    ensures p * (k - l) == p * k - p * l
  {
  }

  /** A multiple of `p` is no other multiple and something less than `p`. */
  lemma NoSum(p: int, k: int, q: int, r: int)
    requires 0 < r < p
    ensures p * k != q * p + r
  {
    var d := k - q;
    assert p * k == q * p + p * d;
    assert d >= 1 ==> p * d >= p;
    assert d <= 0 ==> p * d <= 0;
  }

  /** The length of a prefix mask, searched for from `k` on, or -1. */
  function PrefixLength(m: nat, k: nat): (n: int)
    requires k <= 33
    ensures -1 <= n <= 32 && (n >= 0 ==> m == Prefix(n))
    decreases 33 - k
  {
    if k == 33 then -1 else if m == Prefix(k) then k else PrefixLength(m, k + 1)
  }

  lemma {:induction false} PrefixLengthIs(m: nat, r: int, k: nat)
    requires k <= 33 && (r == -1 || k <= r <= 32)
    requires if r == -1 then forall n: nat :: n <= 32 ==> m != Prefix(n) else m == Prefix(r)
    ensures PrefixLength(m, k) == r
    decreases 33 - k
  {
    hide Prefix;
    if k < 33 {
      if m == Prefix(k) {
        PrefixUnique(k, r);
      } else {
        PrefixLengthIs(m, r, k + 1);
      }
    }
  }

  /** `mask_bits`: the length of the prefix, or -1 when the mask is none. */
  method MaskBits(m: nat) returns (r: int)
    requires m <= ALL_ONES
    ensures -1 <= r <= 32
    ensures r >= 0 ==> m == Prefix(r)
    ensures r == -1 ==> forall n: nat :: n <= 32 ==> m != Prefix(n)
    ensures r == PrefixLength(m, 0)
  {
    hide Seen, Prefix, Pow2, PrefixLength;
    var found, num, mask, i := false, 0, m, 0;
    SeenNothing(m);
    while i < 32
      invariant i <= 32 && Seen(m, i, mask, found, num)
    {
      SeenNext(m, i, mask, found, num);
      if mask % 2 == 1 {
        found := true;
        num := num + 1;
      } else if found {
        forall n: nat | n <= 32 {
          NoPrefix(m, i, mask, num, n);
        }
        PrefixLengthIs(m, -1, 0);
        return -1;
      }
      mask := mask / 2;
      i := i + 1;
    }
    SeenAll(m, mask, found, num);
    r := num;
    PrefixLengthIs(m, r, 0);
  }

  lemma AtLeast(k: nat, p: nat)
    ensures k == 0 || k * p >= p
  {
    assert k * p == p + (k - 1) * p;
  }

  lemma SeenNothing(m: nat)
    ensures Seen(m, 0, m, false, 0)
  {
  }

  lemma SeenAll(m: nat, mask: nat, found: bool, num: nat)
    requires Seen(m, 32, mask, found, num) && m <= ALL_ONES
    ensures num <= 32 && m == Prefix(num)
  {
    hide Pow2;
    Pow32();
    PowGrows(32 - num, 32);
    AtLeast(mask, Pow2(32));
  }

  /** The length of a prefix mask is unique. */
  lemma PrefixUnique(a: nat, b: nat)
    requires a <= 32 && b <= 32 && Prefix(a) == Prefix(b)
    ensures a == b
  {
    if a < b {
      PowGrows(32 - b, 32 - a);
    } else if b < a {
      PowGrows(32 - a, 32 - b);
    }
  }

  /** `htonl(~0 << (32 - n))`, the 32 bits of it. */
  function ShiftedOnes(n: nat): nat
    requires 0 < n <= 32
  {
    ALL_ONES * Pow2(32 - n) % 0x1_0000_0000
  }

  lemma ShiftedOnesIsPrefix(n: nat)
    requires 0 < n <= 32
    ensures ShiftedOnes(n) == Prefix(n)
  {
    Pow32();
    PowGrows(32 - n, 31);
    PowGrows(31, 32);
    var p := Pow2(32 - n);
    assert ALL_ONES * p == (p - 1) * 0x1_0000_0000 + (0x1_0000_0000 - p);
    Residue(p - 1, 0x1_0000_0000 - p);
  }

  lemma Residue(q: nat, r: nat)
    requires r < 0x1_0000_0000
    ensures (q * 0x1_0000_0000 + r) % 0x1_0000_0000 == r
  {
  }

  // ---------------------------------------------------------------- addresses

  type Word = x: nat | x <= ALL_ONES witness 0

  /** The bits that both have. */
  function And(a: nat, b: nat): (r: nat)
    ensures r <= a
  {
    if a == 0 then 0 else 2 * And(a / 2, b / 2) + a % 2 * (b % 2)
  }

  lemma {:induction false} AndTwice(a: nat, b: nat)
    ensures And(And(a, b), b) == And(a, b)
  {
    if a > 0 {
      AndTwice(a / 2, b / 2);
      var r, x := And(a, b), a % 2 * (b % 2);
      assert x == 0 || x == 1;
      assert r / 2 == And(a / 2, b / 2) && r % 2 == x;
      assert x * (b % 2) == x;
    }
  }

  lemma {:induction false} AndZero(a: nat)
    ensures And(a, 0) == 0
  {
    if a > 0 {
      AndZero(a / 2);
    }
  }

  /** `inet_ntoa`. */
  function Ntoa(a: Word): string {
    Dec(a / 0x100_0000) + ("." + (Dec(a / 0x1_0000 % 256) + ("." + (Dec(a / 0x100 % 256) + ("." + Dec(a % 256))))))
  }

  /** `inet_aton`: up to four decimal, octal or hexadecimal numbers, and nothing behind them but what follows
      white space.  At `i` there are up to `k` to come; the last one fills the bytes that are left. */
  function ReadQuad(s: string, i: nat, k: nat, acc: nat): Option<nat>
    requires i <= |s| && k > 0
    decreases k
  {
    var hex := i + 1 < |s| && s[i] == '0' && (s[i + 1] == 'x' || s[i + 1] == 'X');
    var base := if hex then 16 else if i < |s| && s[i] == '0' then 8 else 10;
    var start := if hex then i + 2 else i;
    var e := DigitsEnd(s, start, base);
    var v := Number(s, start, e, base);
    if e == start then None
    else if e < |s| && s[e] == '.' then
      if k == 1 || v > 255 then None else ReadQuad(s, e + 1, k - 1, acc * 256 + v)
    else if (e < |s| && !IsSpace(s[e])) || v >= Pow2(8 * k) then None
    else Some(acc * Pow2(8 * k) + v)
  }

  function Aton(s: string): (r: Option<nat>)
    ensures r.Some? ==> r.value <= ALL_ONES
  {
    QuadBelow(s, 0, 4, 0);
    ReadQuad(s, 0, 4, 0)
  }

  lemma {:induction false} QuadBelow(s: string, i: nat, k: nat, acc: nat)
    requires i <= |s| && 0 < k <= 4 && acc < Pow2(32 - 8 * k)
    ensures ReadQuad(s, i, k, acc).Some? ==> ReadQuad(s, i, k, acc).value <= ALL_ONES
    decreases k
  {
    hide DigitsEnd, Number, Pow2;
    var hex := i + 1 < |s| && s[i] == '0' && (s[i + 1] == 'x' || s[i + 1] == 'X');
    var base := if hex then 16 else if i < |s| && s[i] == '0' then 8 else 10;
    var start := if hex then i + 2 else i;
    var e := DigitsEnd(s, start, base);
    var v := Number(s, start, e, base);
    Pow32();
    EightMore(32 - 8 * k);
    if v <= 255 && k > 1 && e < |s| {
      QuadBelow(s, e + 1, k - 1, acc * 256 + v);
    }
    PowSplits(8 * k, 32);
    LastNumber(acc, v, Pow2(8 * k), Pow2(32 - 8 * k));
  }

  lemma LastNumber(acc: nat, v: nat, p: nat, q: nat)
    requires acc < q && p > 0
    ensures v < p ==> acc * p + v < p * q
  {
    assert p * q == acc * p + p + (q - acc - 1) * p;
  }

  lemma EightMore(n: nat)
    ensures Pow2(n + 8) == 256 * Pow2(n)
  {
    assert Pow2(8) == 256;
    PowSplits(n, n + 8);
  }

  lemma {:induction false} DigitsUpTo(s: string, i: nat, e: nat, base: nat)
    requires i <= e <= |s| && (forall k :: i <= k < e ==> Value(s[k]) < base) && (e < |s| ==> Value(s[e]) >= base)
    ensures DigitsEnd(s, i, base) == e
    decreases e - i
  {
    if i < e {
      DigitsUpTo(s, i + 1, e, base);
    }
  }

  lemma {:induction false} NumberInside(p: string, s: string, t: string, e: nat, base: nat)
    requires e <= |s|
    ensures Number(p + s + t, |p|, |p| + e, base) == Number(s, 0, e, base)
  {
    if e > 0 {
      NumberInside(p, s, t, e - 1, base);
    }
  }

  /** The digits of a number between `p` and `t`. */
  lemma DigitsOf(p: string, v: nat, t: string)
    requires t == "" || t[0] == '.'
    ensures var s, i, e := p + Dec(v) + t, |p|, |p| + |Dec(v)|;
      && i < e && Value(s[i]) < 10 && s[i] == Dec(v)[0] && (s[i] == '0' ==> v == 0 && e == i + 1)
      && (i + 1 < |s| ==> s[i + 1] != 'x' && s[i + 1] != 'X')
      && DigitsEnd(s, i, 10) == e && Number(s, i, e, 10) == v && (e < |s| ==> s[e] == '.')
  {
    hide Dec;
    var d, s := Dec(v), p + Dec(v) + t;
    var i, e := |p|, |p| + |Dec(v)|;
    DecDigits(v);
    NumberOfDec(v);
    NumberInside(p, d, t, |d|, 10);
    assert forall j :: i <= j < e ==> s[j] == d[j - i];
    assert e < |s| ==> s[e] == t[0];
    DigitsUpTo(s, i, e, 10);
  }

  /** One number of a dotted quad, between `p` and `t`. */
  lemma QuadStep(p: string, v: nat, t: string, k: nat, acc: nat)
    requires v <= 255 && k > 0 && (if k == 1 then t == "" else t != "" && t[0] == '.')
    ensures var s := p + Dec(v) + t;
      ReadQuad(s, |p|, k, acc) ==
        if k == 1 then Some(acc * 256 + v) else ReadQuad(s, |p| + |Dec(v)| + 1, k - 1, acc * 256 + v)
  {
    hide Dec, DigitsEnd, Number, Pow2;
    var s, i, e := p + Dec(v) + t, |p|, |p| + |Dec(v)|;
    DigitsOf(p, v, t);
    if v == 0 && s[i] == '0' {
      ZeroAt(s, i, e);
    }
    Pow8();
  }

  lemma Pow8()
    ensures Pow2(8) == 256
  {
  }

  lemma ZeroAt(s: string, i: nat, e: nat)
    requires i < |s| && e == i + 1 && s[i] == '0' && (e < |s| ==> s[e] == '.')
    ensures DigitsEnd(s, i, 8) == e && Number(s, i, e, 8) == 0
  {
    assert Number(s, i, i, 8) == 0;
  }

  lemma QuadParts(a: Word)
    ensures ((a / 0x100_0000 * 256 + a / 0x1_0000 % 256) * 256 + a / 0x100 % 256) * 256 + a % 256 == a
    ensures a / 0x100_0000 <= 255
  {
    assert a / 0x1_0000 == a / 0x100 / 256 && a / 0x100_0000 == a / 0x1_0000 / 256;
  }

  /** A mask may also be written as one number. */
  lemma AtonOfHex()
    ensures Aton("0xffffff00") == Some(0xFFFF_FF00)
  {
    hide Pow2;
    var s := "0xffffff00";
    Pow32();
    HexEnds(s);
    assert ReadQuad(s, 0, 4, 0) == Some(0 * Pow2(32) + 0xFFFF_FF00);
  }

  lemma HexEnds(s: string)
    requires s == "0xffffff00"
    ensures DigitsEnd(s, 2, 16) == 10 && Number(s, 2, 10, 16) == 0xFFFF_FF00
  {
    DigitsUpTo(s, 2, 10, 16);
    assert Number(s, 2, 4, 16) == 0xFF;
    assert Number(s, 2, 6, 16) == 0xFFFF;
    assert Number(s, 2, 8, 16) == 0xFF_FFFF;
  }

  /** An address is read back. */
  lemma AtonOfNtoa(a: Word)
    ensures Aton(Ntoa(a)) == Some(a)
  {
    hide ReadQuad, Dec;
    var v0, v1, v2, v3 := a / 0x100_0000, a / 0x1_0000 % 256, a / 0x100 % 256, a % 256;
    var d0, d1, d2, d3 := Dec(v0), Dec(v1), Dec(v2), Dec(v3);
    var s := Ntoa(a);
    QuadParts(a);
    QuadStep("", v0, "." + (d1 + ("." + (d2 + ("." + d3)))), 4, 0);
    assert s == "" + d0 + ("." + (d1 + ("." + (d2 + ("." + d3)))));
    QuadStep(d0 + ".", v1, "." + (d2 + ("." + d3)), 3, v0);
    assert s == (d0 + ".") + d1 + ("." + (d2 + ("." + d3)));
    QuadStep(d0 + "." + d1 + ".", v2, "." + d3, 2, v0 * 256 + v1);
    assert s == (d0 + "." + d1 + ".") + d2 + ("." + d3);
    QuadStep(d0 + "." + d1 + "." + d2 + ".", v3, "", 1, (v0 * 256 + v1) * 256 + v2);
    assert s == (d0 + "." + d1 + "." + d2 + ".") + d3 + "";
  }

  // ---------------------------------------------------------------- show and fill

  function IndexOf(s: string, c: char, i: nat): (p: int)
    requires i <= |s|
    ensures p == -1 || (i <= p < |s| && s[p] == c)
    decreases |s| - i
  {
    if i == |s| then -1 else if s[i] == c then i else IndexOf(s, c, i + 1)
  }

  lemma {:induction false} NoIndex(s: string, c: char, i: nat, n: nat)
    requires i <= n <= |s| && (forall k :: i <= k < n ==> s[k] != c) && (n < |s| ==> s[n] == c)
    ensures IndexOf(s, c, i) == if n < |s| then n else -1
    decreases n - i
  {
    if i < n {
      NoIndex(s, c, i + 1, n);
    }
  }

  /** What `show_ipfw` prints for an address without looking up its name. */
  function Shown(ip: Word, mask: Word): string {
    if mask == ALL_ONES then Ntoa(ip)
    else
      var mb := PrefixLength(mask, 0);
      if mb == 0 then "any" else if mb > 0 then Ntoa(ip) + "/" + Dec(mb) else Ntoa(ip) + ":" + Ntoa(mask)
  }

  datatype Filled = Rule(ip: Word, mask: Word) | Rejected | Undefined

  datatype MaskRead = Mask(mask: Word) | BadMask | NoShift

  /** The mask behind a separator: an address behind a colon, the length of a prefix behind a slash, and all
      ones without either.  For a negative length the code shifts by more than 32, which C does not define. */
  function MaskPart(sep: char, md: string): MaskRead {
    if sep == ':' then (if Aton(md).None? then BadMask else Mask(Aton(md).value))
    else if sep == '/' then
      var n := Atoi(md);
      if n > 32 then BadMask
      else if n < 0 then NoShift
      else
        PrefixIsWord(n);
        Mask(Prefix(n))
    else Mask(ALL_ONES)
  }

  const NONE := '\0'

  /** Where the address ends: at the first slash, or else at the first colon. */
  function HostEnd(av: string): (p: int)
    ensures p == -1 || 0 <= p < |av|
  {
    var slash := IndexOf(av, '/', 0);
    if slash != -1 then slash else IndexOf(av, ':', 0)
  }

  /** What `fill_ip` makes of an argument; `hosts` looks up names. */
  function Filling(av: string, hosts: string -> Option<Word>): Filled {
    if av <= "any" then Rule(0, 0)
    else
      var p := HostEnd(av);
      var host := if p == -1 then av else av[..p];
      var ip := if Aton(host).Some? then Aton(host) else hosts(host);
      var mask := if p == -1 then MaskPart(NONE, "") else MaskPart(av[p], av[p + 1..]);
      if ip.None? || mask.BadMask? then Rejected
      else if mask.NoShift? then Undefined
      else Rule(And(ip.value, mask.mask), mask.mask)
  }

  lemma PrefixIsWord(n: nat)
    requires n <= 32
    ensures Prefix(n) <= ALL_ONES && Prefix(0) == 0 && Prefix(32) == ALL_ONES
  {
    Pow32();
    assert Pow2(0) == 1;
  }

  /** The address part of `show_ipfw`. */
  method ShowAddress(ip: Word, mask: Word) returns (s: string)
    ensures s == Shown(ip, mask)
  {
    hide Ntoa, Dec, PrefixLength;
    if mask == ALL_ONES {
      return Ntoa(ip);
    }
    var mb := MaskBits(mask);
    if mb == 0 {
      s := "any";
    } else if mb > 0 {
      s := Ntoa(ip) + "/" + Dec(mb);
    } else {
      s := Ntoa(ip) + ":" + Ntoa(mask);
    }
  }

  /** `strchr`. */
  method Strchr(s: string, c: char) returns (p: int)
    ensures p == IndexOf(s, c, 0)
  {
    p := 0;
    while p < |s| && s[p] != c
      invariant 0 <= p <= |s| && IndexOf(s, c, p) == IndexOf(s, c, 0)
    {
      p := p + 1;
    }
    if p == |s| {
      p := -1;
    }
  }

  /** The mask part of `fill_ip`. */
  method ReadMask(sep: char, md: string) returns (r: MaskRead)
    ensures r == MaskPart(sep, md)
  {
    hide Atoi, ShiftedOnes, Prefix;
    PrefixIsWord(0);
    if sep == ':' {
      var m := Aton(md);
      r := if m.None? then BadMask else Mask(m.value);
    } else if sep == '/' {
      if Atoi(md) == 0 {
        r := Mask(0);
      } else if Atoi(md) > 32 {
        r := BadMask;
      } else if Atoi(md) < 0 {
        r := NoShift;
      } else {
        ShiftedOnesIsPrefix(Atoi(md));
        PrefixIsWord(Atoi(md));
        r := Mask(ShiftedOnes(Atoi(md)));
      }
    } else {
      r := Mask(ALL_ONES);
    }
  }

  /** `fill_ip`: cut the argument at its slash or colon and convert the two parts.  What is stored is masked,
      is printed as something that reads back as itself, and is the address and mask that were printed if
      the argument is what `show_ipfw` prints; a slash only ever gives prefix masks. */
  method FillIp(av: string, hosts: string -> Option<Word>) returns (r: Filled)
    ensures r == Filling(av, hosts)
    ensures r.Rule? ==> And(r.ip, r.mask) == r.ip && Filling(Shown(r.ip, r.mask), hosts) == r
    ensures forall ip: Word, mask: Word :: Shown(ip, mask) == av && And(ip, mask) == ip ==> r == Rule(ip, mask)
    ensures r.Rule? && '/' in av ==> PrefixLength(r.mask, 0) >= 0
  {
    hide Filling, Shown, And, PrefixLength;
    FillShowFill(av, hosts);
    FillingIsMasked(av, hosts);
    SlashGivesPrefix(av, hosts);
    forall ip: Word, mask: Word | Shown(ip, mask) == av && And(ip, mask) == ip
      ensures Filling(av, hosts) == Rule(ip, mask)
    {
      ShownIsFilled(ip, mask, hosts);
    }
    r := FillParts(av, hosts);
  }

  /** Behind a slash there is the length of a prefix. */
  lemma SlashGivesPrefix(av: string, hosts: string -> Option<Word>)
    ensures var r := Filling(av, hosts); r.Rule? && '/' in av ==> PrefixLength(r.mask, 0) >= 0
  {
    hide Aton, And, Prefix, PrefixLength, Atoi;
    if '/' in av && !(av <= "any") {
      SlashFound(av, 0);
      var md := av[HostEnd(av) + 1..];
      if 0 <= Atoi(md) <= 32 {
        PrefixLengthIs(Prefix(Atoi(md)), Atoi(md), 0);
      }
    }
  }

  lemma {:induction false} SlashFound(s: string, i: nat)
    requires i <= |s| && '/' in s[i..]
    ensures IndexOf(s, '/', i) != -1
    decreases |s| - i
  {
    if s[i] != '/' {
      SlashFound(s, i + 1);
    }
  }

  method FillParts(av: string, hosts: string -> Option<Word>) returns (r: Filled)
    ensures r == Filling(av, hosts)
  {
    hide MaskPart, Aton, IndexOf, And;
    if av <= "any" {
      return Rule(0, 0);
    }
    var host, md, sep := av, "", NONE;
    var p := Strchr(av, '/');
    if p == -1 {
      p := Strchr(av, ':');
    }
    if p != -1 {
      sep, host, md := av[p], av[..p], av[p + 1..];
    }
    var ip: Option<Word> := Aton(host);
    if ip.None? {
      ip := hosts(host);
    }
    if ip.None? {
      return Rejected;
    }
    var mask := ReadMask(sep, md);
    match mask
    case BadMask => r := Rejected;
    case NoShift => r := Undefined;
    case Mask(m) => r := Rule(And(ip.value, m), m);
  }

  /** A rule read by `fill_ip` is stored masked. */
  lemma FillingIsMasked(av: string, hosts: string -> Option<Word>)
    ensures var r := Filling(av, hosts); r.Rule? ==> And(r.ip, r.mask) == r.ip
  {
    hide MaskPart, Aton;
    forall a: nat, b: nat ensures And(And(a, b), b) == And(a, b) {
      AndTwice(a, b);
    }
  }

  lemma NtoaPlain(a: Word)
    ensures |Ntoa(a)| > 0 && Value(Ntoa(a)[0]) < 10
    ensures forall i :: 0 <= i < |Ntoa(a)| ==> Ntoa(a)[i] != '/' && Ntoa(a)[i] != ':'
  {
    hide Dec;
    var v0, v1, v2, v3 := a / 0x100_0000, a / 0x1_0000 % 256, a / 0x100 % 256, a % 256;
    DecDigits(v0);
    DecDigits(v1);
    DecDigits(v2);
    DecDigits(v3);
    NoSlash(Dec(v2), Dec(v3));
    NoSlash(Dec(v1), Dec(v2) + ("." + Dec(v3)));
    NoSlash(Dec(v0), Dec(v1) + ("." + (Dec(v2) + ("." + Dec(v3)))));
  }

  lemma NoSlash(a: string, b: string)
    requires forall i :: 0 <= i < |a| ==> a[i] != '/' && a[i] != ':'
    requires forall i :: 0 <= i < |b| ==> b[i] != '/' && b[i] != ':'
    ensures var s := a + ("." + b); forall i :: 0 <= i < |s| ==> s[i] != '/' && s[i] != ':'
  {
    var s := a + ("." + b);
    forall i | 0 <= i < |s| ensures s[i] != '/' && s[i] != ':' {
      assert s[i] == if i < |a| then a[i] else if i == |a| then '.' else b[i - |a| - 1];
    }
  }

  lemma NotAny(s: string)
    requires s != "" && Value(s[0]) < 10
    ensures !(s <= "any")
  {
  }

  /** An argument that is an address, a separator and a mask. */
  lemma FillingOf(a: string, sep: char, md: string, ip: Word, hosts: string -> Option<Word>)
    requires a != "" && Value(a[0]) < 10 && Aton(a) == Some(ip)
    requires forall i :: 0 <= i < |a| ==> a[i] != '/' && a[i] != ':'
    requires sep == '/' || (sep == ':' && forall i :: 0 <= i < |md| ==> md[i] != '/')
    requires MaskPart(sep, md).Mask?
    ensures var mask := MaskPart(sep, md).mask; Filling(a + ([sep] + md), hosts) == Rule(And(ip, mask), mask)
  {
    hide MaskPart, Aton, And;
    var s := a + ([sep] + md);
    NotAny(s);
    if sep == '/' {
      NoIndex(s, '/', 0, |a|);
    } else {
      NoIndex(s, '/', 0, |s|);
      NoIndex(s, ':', 0, |a|);
    }
    assert s[..|a|] == a && s[|a| + 1..] == md && s[|a|] == sep;
  }

  /** An argument that is an address alone. */
  lemma FillingAlone(a: string, ip: Word, hosts: string -> Option<Word>)
    requires a != "" && Value(a[0]) < 10 && Aton(a) == Some(ip)
    requires forall i :: 0 <= i < |a| ==> a[i] != '/' && a[i] != ':'
    ensures Filling(a, hosts) == Rule(And(ip, ALL_ONES), ALL_ONES)
  {
    hide Aton, And, Atoi, Prefix;
    NotAny(a);
    NoIndex(a, '/', 0, |a|);
    NoIndex(a, ':', 0, |a|);
  }

  lemma MaskParts(n: nat, mask: Word)
    requires 0 < n <= 32
    ensures var m := MaskPart('/', Dec(n)); m.Mask? && m.mask == Prefix(n)
    ensures MaskPart(':', Ntoa(mask)) == Mask(mask)
  {
    hide Ntoa, Aton, Dec, Prefix, Atoi;
    AtoiOfDec(n);
    PrefixIsWord(n);
    AtonOfNtoa(mask);
  }

  /** What `show_ipfw` prints for a rule that is stored masked, `fill_ip` reads back. */
  lemma ShownIsFilled(ip: Word, mask: Word, hosts: string -> Option<Word>)
    requires And(ip, mask) == ip
    ensures Filling(Shown(ip, mask), hosts) == Rule(ip, mask)
  {
    hide Ntoa, Aton, Dec, And, PrefixLength, Prefix, MaskPart, Filling;
    var a, mb := Ntoa(ip), PrefixLength(mask, 0);
    NtoaPlain(ip);
    AtonOfNtoa(ip);
    if mask == ALL_ONES {
      FillingAlone(a, ip, hosts);
    } else if mb == 0 {
      PrefixIsWord(0);
      AndZero(ip);
      AnyIs(hosts);
    } else if mb > 0 {
      MaskParts(mb, mask);
      FillingOf(a, '/', Dec(mb), ip, hosts);
      assert a + "/" + Dec(mb) == a + (['/'] + Dec(mb));
    } else {
      NtoaPlain(mask);
      MaskParts(1, mask);
      FillingOf(a, ':', Ntoa(mask), ip, hosts);
      assert a + ":" + Ntoa(mask) == a + ([':'] + Ntoa(mask));
    }
  }

  lemma AnyIs(hosts: string -> Option<Word>)
    ensures Filling("any", hosts) == Rule(0, 0)
  {
  }

  /** So reading, printing and reading again is reading once. */
  lemma FillShowFill(av: string, hosts: string -> Option<Word>)
    ensures var r := Filling(av, hosts); r.Rule? ==> Filling(Shown(r.ip, r.mask), hosts) == r
  {
    hide Filling, Shown;
    FillingIsMasked(av, hosts);
    var r := Filling(av, hosts);
    if r.Rule? {
      ShownIsFilled(r.ip, r.mask, hosts);
    }
  }
}
