/** Addresses, masks and ports in text: how arguments of ipfw are read and printed. */
module IpfwExamples {
  import opened Common
  import opened CNumber
  import opened IpfwAddr
  import opened IpfwPort

  // ---------------------------------------------------------------- numbers

  /** Numbers are printed in decimal, and in hexadecimal with four digits. */
  lemma Printed()
    ensures Dec(0) == "0" && Dec(7) == "7" && Dec(42) == "42" && Dec(65535) == "65535"
    ensures Hex4(0) == "0x0000" && Hex4(80) == "0x0050" && Hex4(0x1A2F) == "0x1a2f" && Hex4(65535) == "0xffff"
  {
    PrintedInHex();
    hide Hex4;
    assert Dec(4) == "4" && Dec(6) == "6" && Dec(65) == "65" && Dec(655) == "655" && Dec(6553) == "6553";
  }

  lemma PrintedInHex()
    ensures Hex4(0) == "0x0000" && Hex4(80) == "0x0050" && Hex4(0x1A2F) == "0x1a2f" && Hex4(65535) == "0xffff"
  {
  }

  /** `atoi` skips white space, takes a sign, and stops at the first other character. */
  lemma Integers()
    ensures Atoi("24") == 24 && Atoi(" 24") == 24 && Atoi("\t+7") == 7 && Atoi("-5x") == -5
    ensures Atoi("") == 0 && Atoi("x") == 0 && Atoi("12a9") == 12
  {
    hide Atoi;
    Spaced();
    Stopped();
  }

  lemma Spaced()
    ensures Atoi("24") == 24 && Atoi(" 24") == 24 && Atoi("\t+7") == 7
  {
    assert Number("24", 0, 1, 10) == 2 && Number(" 24", 1, 2, 10) == 2 && Number(" 24", 1, 1, 10) == 0;
    assert DigitsEnd("24", 1, 10) == 2 && DigitsEnd(" 24", 2, 10) == 3;
    assert Number("\t+7", 2, 2, 10) == 0 && DigitsEnd("\t+7", 2, 10) == 3;
    assert SkipSpace(" 24", 0) == 1 && SkipSpace("\t+7", 0) == 1;
  }

  lemma Stopped()
    ensures Atoi("-5x") == -5 && Atoi("") == 0 && Atoi("x") == 0 && Atoi("12a9") == 12
  {
    assert DigitsEnd("12a9", 1, 10) == 2 && Number("12a9", 0, 1, 10) == 1;
    assert Number("-5x", 1, 1, 10) == 0 && DigitsEnd("-5x", 1, 10) == 2;
  }

  /** `strtoul` finds the base: 0x for 16, 0 for 8. */
  lemma Bases()
    ensures Strtoul("10") == (10, 2) && Strtoul("010") == (8, 3) && Strtoul("0x10") == (16, 4)
    ensures Strtoul("0X1f") == (31, 4) && Strtoul("08") == (0, 1) && Strtoul("") == (0, 0) && Strtoul("x") == (0, 0)
  {
    hide Strtoul;
    DecimalAndOctal();
    Hexadecimal();
  }

  lemma DecimalAndOctal()
    ensures Strtoul("10") == (10, 2) && Strtoul("010") == (8, 3) && Strtoul("08") == (0, 1)
    ensures Strtoul("") == (0, 0) && Strtoul("x") == (0, 0)
  {
    assert Number("10", 0, 1, 10) == 1 && Number("10", 0, 0, 10) == 0 && DigitsEnd("10", 1, 10) == 2;
    assert Number("010", 0, 2, 8) == 1 && Number("010", 0, 1, 8) == 0 && Number("010", 0, 0, 8) == 0;
    assert DigitsEnd("010", 2, 8) == 3 && DigitsEnd("010", 1, 8) == 3;
    assert Number("08", 0, 0, 8) == 0 && DigitsEnd("08", 1, 8) == 1;
  }

  lemma Hexadecimal()
    ensures Strtoul("0x10") == (16, 4) && Strtoul("0X1f") == (31, 4)
  {
    assert Number("0x10", 2, 3, 16) == 1 && Number("0x10", 2, 2, 16) == 0 && DigitsEnd("0x10", 3, 16) == 4;
    assert Number("0X1f", 2, 3, 16) == 1 && Number("0X1f", 2, 2, 16) == 0 && DigitsEnd("0X1f", 3, 16) == 4;
  }

  /** What is too large for an `int` or an `unsigned long` becomes the nearest one; a minus wraps around. */
  lemma Clamped(n: nat)
    ensures Atoi(Dec(n)) == Atoi("+" + Dec(n)) == if n > 0x7FFF_FFFF then 0x7FFF_FFFF else n
    ensures Atoi("-" + Dec(n)) == if n > 0x8000_0000 then -0x8000_0000 else 0 - n
    ensures Strtoul(Dec(n)) == (if n > 0xFFFF_FFFF then 0xFFFF_FFFF else n, |Dec(n)|)
    ensures Strtoul("+" + Dec(n)) == (if n > 0xFFFF_FFFF then 0xFFFF_FFFF else n, 1 + |Dec(n)|)
    ensures Strtoul("-" + Dec(n)) ==
      (if n > 0xFFFF_FFFF then 0xFFFF_FFFF else if n == 0 then 0 else 0x1_0000_0000 - n, 1 + |Dec(n)|)
  {
    hide Dec, Strtoul, Atoi;
    assert "" + Dec(n) == Dec(n);
    AtoiSigned("", n);
    AtoiSigned("+", n);
    AtoiSigned("-", n);
    StrtoulSigned("", n);
    StrtoulSigned("+", n);
    StrtoulSigned("-", n);
  }

  lemma AtoiSigned(t: string, n: nat)
    requires t in ["", "+", "-"]
    ensures Atoi(t + Dec(n)) ==
      if t == "-" then (if n > 0x8000_0000 then -0x8000_0000 else 0 - n)
      else if n > 0x7FFF_FFFF then 0x7FFF_FFFF else n
  {
    hide Dec, Number, DigitsEnd;
    SignedDigits(t, n, 10);
  }

  lemma StrtoulSigned(t: string, n: nat)
    requires t in ["", "+", "-"]
    ensures Strtoul(t + Dec(n)) ==
      (if n > 0xFFFF_FFFF then 0xFFFF_FFFF else if t == "-" && n > 0 then 0x1_0000_0000 - n else n, |t + Dec(n)|)
  {
    hide Dec, Number, DigitsEnd;
    SignedDigits(t, n, 10);
    if n == 0 {
      SignedDigits(t, n, 8);
    }
  }

  /** The digits of a number behind its sign. */
  lemma SignedDigits(t: string, n: nat, base: nat)
    requires t in ["", "+", "-"] && (base == 10 || (n == 0 && base == 8))
    ensures var s := t + Dec(n);
      && SkipSpace(s, 0) == 0 && (|t| == 1 ==> s[0] == t[0]) && s[|t|] !in ['-', '+']
      && (s[|t|] == '0' <==> n == 0) && (n == 0 ==> |s| == |t| + 1)
      && |t| < |s| == DigitsEnd(s, |t|, base) && Number(s, |t|, |s|, base) == n
  {
    var s := t + Dec(n);
    DecDigits(n);
    assert forall k :: |t| <= k < |s| ==> s[k] == Dec(n)[k - |t|];
    DecBelow(n, base);
    AllDigits(s, |t|, base);
    NumberBehind(t, Dec(n), |Dec(n)|, base);
  }

  lemma DecBelow(n: nat, base: nat)
    requires base == 10 || (n == 0 && base == 8)
    ensures Number(Dec(n), 0, |Dec(n)|, base) == n
    ensures forall k :: 0 <= k < |Dec(n)| ==> Value(Dec(n)[k]) < base
  {
    NumberOfDec(n);
    DecDigits(n);
    if n == 0 {
      assert Dec(0) == "0" && Number("0", 0, 0, base) == 0;
    }
  }

  lemma {:induction false} NumberBehind(t: string, s: string, e: nat, base: nat)
    requires e <= |s|
    ensures Number(t + s, |t|, |t| + e, base) == Number(s, 0, e, base)
  {
    if e > 0 {
      NumberBehind(t, s, e - 1, base);
    }
  }

  /** The upper half of the words stands for the numbers below 0. */
  lemma Signed(n: nat)
    requires n <= 0xFFFF_FFFF
    ensures AsInt(n) == if n < 0x8000_0000 then n else n - 0x1_0000_0000
  {
  }

  /** The digits of a base up to 36 are the decimal digits and then the letters, small or large. */
  lemma Digits(c: char)
    ensures '0' <= c <= '9' ==> Value(c) == c as int - 48
    ensures 'a' <= c <= 'z' ==> Value(c) == c as int - 87
    ensures 'A' <= c <= 'Z' ==> Value(c) == c as int - 55
    ensures Value(c) < 36 <==> '0' <= c <= '9' || 'a' <= c <= 'z' || 'A' <= c <= 'Z'
    ensures IsSpace(c) <==> c as int == 32 || 9 <= c as int <= 13
  {
  }

  // ---------------------------------------------------------------- masks and addresses

  lemma Prefixes()
    ensures Prefix(0) == 0 && Prefix(8) == 0xFF00_0000 && Prefix(24) == 0xFFFF_FF00 && Prefix(32) == 0xFFFF_FFFF
  {
    hide Pow2;
    Pow32();
    PowsOfBytes();
  }

  lemma PowsOfBytes()
    ensures Pow2(0) == 1 && Pow2(8) == 256 && Pow2(24) == 0x100_0000
  {
    PowSplits(8, 16);
    PowSplits(8, 24);
  }

  /** Bit by bit, both have what the result has. */
  lemma {:induction false} AndBits(a: nat, b: nat, k: nat)
    ensures And(a, b) / Pow2(k) % 2 == a / Pow2(k) % 2 * (b / Pow2(k) % 2)
    decreases k
  {
    hide And;
    AndHalves(a, b);
    if k == 0 {
      assert Pow2(0) == 1;
    } else {
      AndBits(a / 2, b / 2, k - 1);
      HalvedFirst(And(a, b), Pow2(k - 1));
      HalvedFirst(a, Pow2(k - 1));
      HalvedFirst(b, Pow2(k - 1));
    }
  }

  lemma AndHalves(a: nat, b: nat)
    ensures And(a, b) / 2 == And(a / 2, b / 2) && And(a, b) % 2 == a % 2 * (b % 2)
  {
    var x := a % 2 * (b % 2);
    assert x == 0 || x == 1;
    assert a > 0 ==> And(a, b) == 2 * And(a / 2, b / 2) + x;
  }

  lemma HalvedFirst(n: nat, p: nat)
    requires p > 0
    ensures n / (2 * p) == n / 2 / p
  {
    var q, r := n / 2 / p, n / 2 % p;
    assert n == 2 * (q * p + r) + n % 2;
    var s := 2 * r + n % 2;
    assert n == q * (2 * p) + s && 0 <= s < 2 * p;
    var e: int := n / (2 * p) - q;
    assert e * (2 * p) == s - n % (2 * p);
    assert e >= 1 ==> e * (2 * p) >= 2 * p;
    assert e <= -1 ==> e * (2 * p) <= -(2 * p);
  }

  /** An address is four bytes, the first of which is the highest. */
  lemma Quads()
    ensures Ntoa(0x0A00_0001) == "10.0.0.1" && Aton("10.0.0.1") == Some(0x0A00_0001)
    ensures Ntoa(0xC0A8_01FE) == "192.168.1.254" && Aton("192.168.1.254") == Some(0xC0A8_01FE)
  {
    hide Aton, Ntoa;
    FirstQuad();
    SecondQuad();
    AtonOfNtoa(0x0A00_0001);
    AtonOfNtoa(0xC0A8_01FE);
  }

  lemma FirstQuad()
    ensures Ntoa(0x0A00_0001) == "10.0.0.1"
  {
    hide Dec;
    OneByte();
    assert Ntoa(0x0A00_0001) == Dec(10) + "." + Dec(0) + "." + Dec(0) + "." + Dec(1);
  }

  lemma SecondQuad()
    ensures Ntoa(0xC0A8_01FE) == "192.168.1.254"
  {
    hide Dec;
    OneByte();
    assert Ntoa(0xC0A8_01FE) == Dec(192) + "." + Dec(168) + "." + Dec(1) + "." + Dec(254);
  }

  lemma OneByte()
    ensures Dec(0) == "0" && Dec(1) == "1" && Dec(10) == "10"
    ensures Dec(168) == "168" && Dec(192) == "192" && Dec(254) == "254"
  {
    assert Dec(19) == "19" && Dec(16) == "16" && Dec(25) == "25";
  }

  /** "any" and what it begins with is every address; a host alone is that address. */
  lemma Hosts(hosts: string -> Option<Word>, ip: Word)
    ensures Filling("any", hosts) == Filling("an", hosts) == Filling("a", hosts) == Filling("", hosts) == Rule(0, 0)
    ensures hosts("ws") == Some(ip) ==> Filling("ws", hosts) == Rule(And(ip, 0xFFFF_FFFF), 0xFFFF_FFFF)
    ensures hosts("ws") == None ==> Filling("ws", hosts) == Rejected
    ensures hosts("ws") == Some(ip) ==> Filling("ws/24", hosts) == Rule(And(ip, 0xFFFF_FF00), 0xFFFF_FF00)
    ensures hosts("ws") == Some(ip) ==> Filling("ws/0", hosts) == Rule(And(ip, 0), 0)
    ensures Filling("ws/33", hosts) == Rejected
    ensures hosts("ws") == Some(ip) ==> Filling("ws/-1", hosts) == Undefined
  {
    hide Prefix, Atoi, And, Aton, HostEnd, MaskPart, Filling;
    EveryAddress(hosts);
    OneHost(hosts);
    Prefixes();
    Widths();
    Slashed("24", hosts);
    Slashed("0", hosts);
    Slashed("33", hosts);
    Slashed("-1", hosts);
    assert "ws/24" == "ws" + "/" + "24" && "ws/0" == "ws" + "/" + "0" && "ws/33" == "ws" + "/" + "33";
    assert "ws/-1" == "ws" + "/" + "-1";
  }

  lemma EveryAddress(hosts: string -> Option<Word>)
    ensures Filling("any", hosts) == Filling("an", hosts) == Filling("a", hosts) == Filling("", hosts) == Rule(0, 0)
  {
  }

  lemma OneHost(hosts: string -> Option<Word>)
    ensures Filling("ws", hosts) ==
      if hosts("ws") == None then Rejected else Rule(And(hosts("ws").value, 0xFFFF_FFFF), 0xFFFF_FFFF)
  {
    hide Aton, And;
    assert "ws"[0] == 'w' && !("ws" <= "any");
    NoNumber("ws");
    NoIndex("ws", '/', 0, 2);
    NoIndex("ws", ':', 0, 2);
  }

  lemma NoNumber(s: string)
    requires s == "ws"
    ensures Aton(s) == None
  {
    assert Value(s[0]) >= 10;
  }

  lemma Widths()
    ensures Atoi("24") == 24 && Atoi("0") == 0 && Atoi("33") == 33 && Atoi("-1") == -1
  {
    hide Atoi, Dec;
    TwoDigits();
    AtoiSigned("", 24);
    AtoiSigned("", 0);
    AtoiSigned("", 33);
    AtoiSigned("-", 1);
    assert "" + "24" == "24" && "" + "0" == "0" && "" + "33" == "33" && "-" + "1" == "-1";
  }

  lemma TwoDigits()
    ensures Dec(24) == "24" && Dec(0) == "0" && Dec(33) == "33" && Dec(1) == "1"
  {
    assert Dec(2) == "2" && Dec(3) == "3";
  }

  /** A name with a width behind a slash. */
  lemma Slashed(md: string, hosts: string -> Option<Word>)
    ensures var n, s := Atoi(md), "ws" + "/" + md;
      Filling(s, hosts) ==
        if hosts("ws") == None || n > 32 then Rejected
        else if n < 0 then Undefined
        else
          (PrefixIsWord(n);
           Rule(And(hosts("ws").value, Prefix(n)), Prefix(n)))
  {
    hide Prefix, Atoi, And, Aton, HostEnd, MaskPart;
    var s := "ws" + "/" + md;
    SlashAt(s, md);
    NoNumber("ws");
    WidthPart(md);
  }

  lemma WidthPart(md: string)
    ensures MaskPart('/', md) ==
      var n := Atoi(md);
      if n > 32 then BadMask else if n < 0 then NoShift else (PrefixIsWord(n); Mask(Prefix(n)))
  {
    hide Prefix, Atoi, Aton;
    if 0 <= Atoi(md) <= 32 {
      PrefixIsWord(Atoi(md));
    }
  }

  lemma SlashAt(s: string, md: string)
    requires s == "ws" + "/" + md
    ensures !(s <= "any") && HostEnd(s) == 2 && s[2] == '/' && s[..2] == "ws" && s[3..] == md
  {
    assert s[0] == 'w' && s[1] == 's' && s[2] == '/';
    NoIndex(s, '/', 0, 2);
  }

  // ---------------------------------------------------------------- ports

  /** A list, a range and a masked port in print. */
  lemma PortsPrinted()
    ensures TextFrom(Plain, [22, 80, 443], 0) == " 22,80,443"
    ensures TextFrom(Range, [22, 80, 443], 0) == " 22-80,443"
    ensures TextFrom(Masked, [22, 80, 443], 0) == " 22:0x0050,443"
  {
    hide TextFrom, Dec, Hex4;
    FourPorts();
    PrintedInHex();
    ThreePrinted(Plain, 22, 80, 443);
    ThreePrinted(Range, 22, 80, 443);
    ThreePrinted(Masked, 22, 80, 443);
  }

  lemma ThreePrinted(kind: Kind, a: nat, b: nat, c: nat)
    requires a < 0x1_0000 && b < 0x1_0000 && c < 0x1_0000
    ensures TextFrom(kind, [a, b, c], 0) ==
      " " + (Dec(a) + ((match kind case Plain => "," + Dec(b) case Range => "-" + Dec(b) case Masked => ":" + Hex4(b))
      + ("," + Dec(c))))
  {
    hide TextFrom, Dec, Hex4;
    var p := [a, b, c];
    NoText(kind, p);
    TextStep(kind, p, 0);
    TextStep(kind, p, 1);
    TextStep(kind, p, 2);
    assert Dec(c) + "" == Dec(c);
  }

  /** One element of a list is a number below 65536, or a name that the services know. */
  lemma OnePort(services: string -> Option<nat>, n: nat)
    ensures n < 0x1_0000 ==> IpfwPort.Lookup(Dec(n), services) == Some(n)
    ensures IpfwPort.Lookup("65536", services) == None
    ensures services("ssh") == Some(22) ==> IpfwPort.Lookup("ssh", services) == Some(22)
    ensures services("ssh") == None ==> IpfwPort.Lookup("ssh", services) == None
    ensures services("ftp-data") == Some(20) ==> IpfwPort.Lookup("ftp\\-data", services) == Some(20)
  {
    hide Dec, Strtoul, Copied;
    if n < 0x1_0000 {
      LookupOfDec(n, services);
    }
    NamesCopied();
    NotNumbers();
    TooLarge();
  }

  lemma NamesCopied()
    ensures Copied("ssh", 0) == "ssh" && Copied("ftp\\-data", 0) == "ftp-data" && Copied("ssh,80", 0) == "ssh"
    ensures Copied("65536", 0) == "65536" && Copied("a\\", 0) == "a\\" && Copied("a\\,", 0) == "a,"
  {
    hide Copied;
    WholeCopies();
    EscapedCopies();
  }

  lemma WholeCopies()
    ensures Copied("ssh", 0) == "ssh" && Copied("65536", 0) == "65536" && Copied("ssh,80", 0) == "ssh"
  {
    CopiedPlain("ssh", 0);
    CopiedPlain("65536", 0);
    assert Copied("ssh,80", 3) == "" && Copied("ssh,80", 2) == "h" && Copied("ssh,80", 1) == "sh";
  }

  lemma EscapedCopies()
    ensures Copied("ftp\\-data", 0) == "ftp-data" && Copied("a\\", 0) == "a\\" && Copied("a\\,", 0) == "a,"
  {
    var s := "ftp\\-data";
    CopiedPlain(s, 5);
    assert s[5..] == "data";
    assert Copied(s, 3) == "-" + "data" && Copied(s, 2) == "p" + "-data" && Copied(s, 1) == "t" + "p-data";
    assert Copied(s, 0) == "f" + "tp-data";
    assert Copied("a\\", 1) == "\\" + Copied("a\\", 2) && Copied("a\\", 2) == "";
    assert Copied("a\\,", 1) == "," + Copied("a\\,", 3) && Copied("a\\,", 3) == "";
  }

  lemma NotNumbers()
    ensures Strtoul("ssh") == (0, 0) && Strtoul("ftp-data") == (0, 0)
  {
  }

  lemma TooLarge()
    ensures Strtoul("65536") == (65536, 5)
  {
    assert Number("65536", 0, 1, 10) == 6 && Number("65536", 0, 2, 10) == 65 && Number("65536", 0, 3, 10) == 655;
    assert Number("65536", 0, 4, 10) == 6553;
    assert DigitsEnd("65536", 4, 10) == 5 && DigitsEnd("65536", 3, 10) == 5 && DigitsEnd("65536", 2, 10) == 5;
    assert DigitsEnd("65536", 1, 10) == 5;
  }

  /** No more than ten ports are stored, and a name of more than 31 characters is cut. */
  lemma PortLimits(services: string -> Option<nat>, name: string)
    requires |name| == 40 && forall k :: 0 <= k < 40 ==> 'g' <= name[k] <= 'z'
    ensures IP_FW_MAX_PORTS == 10
    ensures services(name[..31]) == Some(7) ==> IpfwPort.Lookup(name, services) == Some(7)
  {
    CopiedPlain(name[..31], 0);
    assert Value(name[..31][0]) >= 16;
  }

  /** Two numbers or names on the sides of a separator. */
  lemma PairParsed(a: string, b: string, services: string -> Option<nat>)
    requires forall k :: 0 <= k < |a| ==> a[k] !in ['\\', ',', ':', '-']
    requires forall k :: 0 <= k < |b| ==> b[k] !in ['\\', ',', ':', '-']
    ensures var first := if a == "" then Some(0) else IpfwPort.Lookup(a, services);
      var second := if b == "" then Some(65535) else IpfwPort.Lookup(b, services);
      && Parse(a + (['-'] + b), services) ==
           (if first == None || second == None then None
            else Some(Parsed(Range, [first.value, second.value])))
      && Parse(a + ([':'] + b), services) ==
           (if first == None || second == None then None
            else Some(Parsed(Masked, [first.value, second.value])))
  {
    hide IpfwPort.Lookup, Parse;
    OnePair(a, '-', b, Range, services);
    OnePair(a, ':', b, Masked, services);
  }

  lemma OnePair(a: string, sep: char, b: string, kind: Kind, services: string -> Option<nat>)
    requires (sep == '-' && kind == Range) || (sep == ':' && kind == Masked)
    requires forall k :: 0 <= k < |a| ==> a[k] !in ['\\', ',', ':', '-']
    requires forall k :: 0 <= k < |b| ==> b[k] !in ['\\', ',', ':', '-']
    ensures var first, second := OrDefault(a, 0, services), OrDefault(b, 65535, services);
      Parse(a + ([sep] + b), services) ==
        if first == None || second == None then None else Some(Parsed(kind, [first.value, second.value]))
  {
    hide IpfwPort.Lookup, IndexOf, FirstSeparator, List, OrDefault;
    CutAt(a, sep, b);
    CutAt(b, sep, a);
  }

  /** A backslash hides the separator behind it. */
  lemma Escaped()
    ensures FirstSeparator("ftp\\-data-21", 0) == 9 && FirstSeparator("ssh", 0) == 3 && FirstSeparator("a\\", 0) == 2
    ensures FirstSeparator("a,b-c", 0) == 1 && FirstSeparator("a:b-c", 0) == 1
  {
    var s := "ftp\\-data-21";
    SeparatorAt(s, 5, 9);
    assert FirstSeparator(s, 3) == FirstSeparator(s, 5);
    assert FirstSeparator(s, 2) == FirstSeparator(s, 3) && FirstSeparator(s, 1) == FirstSeparator(s, 2);
    SeparatorAt("ssh", 0, 3);
    SeparatorAt("a,b-c", 0, 1);
    SeparatorAt("a:b-c", 0, 1);
    assert FirstSeparator("a\\", 1) == 2;
  }

  /** An open range begins at 0 or ends at 65535; a list may follow a pair, but not stand before it. */
  lemma Ranges(services: string -> Option<nat>)
    ensures Parse("-1024", services) == Some(Parsed(Range, [0, 1024]))
    ensures Parse("1024-", services) == Some(Parsed(Range, [1024, 65535]))
    ensures Parse("22:", services) == Some(Parsed(Masked, [22, 65535]))
    ensures Parse("22-80,443", services) == Some(Parsed(Range, [22, 80, 443]))
    ensures Parse("22,80", services) == Some(Parsed(Plain, [22, 80]))
  {
    hide IpfwPort.Lookup, Parse, Dec;
    FourPorts();
    LookupOfDec(22, services);
    LookupOfDec(80, services);
    LookupOfDec(443, services);
    LookupOfDec(1024, services);
    PairParsed("", "1024", services);
    PairParsed("1024", "", services);
    PairParsed("22", "", services);
    assert "-1024" == "" + (['-'] + "1024") && "1024-" == "1024" + (['-'] + "") && "22:" == "22" + ([':'] + "");
    ListedPorts(services);
  }

  lemma FourPorts()
    ensures Dec(22) == "22" && Dec(80) == "80" && Dec(443) == "443" && Dec(1024) == "1024"
  {
    assert Dec(44) == "44" && Dec(10) == "10" && Dec(102) == "102";
  }

  lemma ListedPorts(services: string -> Option<nat>)
    ensures Parse("22-80,443", services) == Some(Parsed(Range, [22, 80, 443]))
    ensures Parse("22,80", services) == Some(Parsed(Plain, [22, 80]))
  {
    hide IpfwPort.Lookup, Parse, Dec, TextFrom;
    FourPorts();
    PortsReadBack(Range, [22, 80, 443], services);
    PortsReadBack(Plain, [22, 80], services);
    PortsPrinted();
    TwoPrinted();
    TextStep(Range, [22, 80, 443], 0);
    TextStep(Plain, [22, 80], 0);
    assert Argument(Range, [22, 80, 443]) == (" 22-80,443")[1..] == "22-80,443";
    assert Argument(Plain, [22, 80]) == (" 22,80")[1..] == "22,80";
  }

  lemma TwoPrinted()
    ensures TextFrom(Plain, [22, 80], 0) == " 22,80"
  {
    var p := [22, 80];
    FourPorts();
    hide Dec;
    assert TextFrom(Plain, p, 2) == "" && TextFrom(Plain, p, 1) == ",80";
  }
}
