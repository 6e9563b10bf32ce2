/** Port lists of ipfw rules: `fill_port` reads back what `show_ipfw` prints. */
module IpfwPort {
  import opened Common
  import opened CNumber
  import opened IpfwAddr

  const IP_FW_MAX_PORTS := 10

  /** What the first two ports of a list are: two ports, a range, or a port and its mask. */
  datatype Kind = Plain | Range | Masked

  // ---------------------------------------------------------------- printing

  /** The character before port `i`. */
  function Comma(kind: Kind, i: nat): char {
    if i == 0 then ' ' else if i == 1 && kind == Range then '-' else if i == 1 && kind == Masked then ':' else ','
  }

  function PortText(comma: char, port: nat): string
    requires port < 0x1_0000
  {
    if comma == ':' then Hex4(port) else Dec(port)
  }

  predicate Ports(ports: seq<nat>) {
    forall i :: 0 <= i < |ports| ==> ports[i] < 0x1_0000
  }

  /** What is printed from port `i` on. */
  function TextFrom(kind: Kind, ports: seq<nat>, i: nat): string
    requires i <= |ports| && Ports(ports)
    decreases |ports| - i
  {
    if i == |ports| then ""
    else [Comma(kind, i)] + PortText(Comma(kind, i), ports[i]) + TextFrom(kind, ports, i + 1)
  }

  lemma TextStep(kind: Kind, ports: seq<nat>, i: nat)
    requires Ports(ports) && i < |ports|
    ensures TextFrom(kind, ports, i) ==
      [Comma(kind, i)] + (PortText(Comma(kind, i), ports[i]) + TextFrom(kind, ports, i + 1))
  {
  }

  lemma NoText(kind: Kind, ports: seq<nat>)
    requires Ports(ports)
    ensures TextFrom(kind, ports, |ports|) == ""
  {
  }

  /** The loop of `show_ipfw` over `print_port`, without looking up names. */
  method PrintPorts(kind: Kind, ports: seq<nat>) returns (s: string)
    requires Ports(ports)
    ensures s == TextFrom(kind, ports, 0)
  {
    hide Hex4, Dec, TextFrom, PortText;
    s := "";
    NoText(kind, ports);
    var comma, i := ' ', 0;
    while i < |ports|
      invariant i <= |ports| && comma == Comma(kind, i)
      invariant TextFrom(kind, ports, 0) == s + TextFrom(kind, ports, i)
    {
      TextStep(kind, ports, i);
      s := s + ([comma] + PortText(comma, ports[i]));
      comma := if i == 0 && kind == Range then '-' else if i == 0 && kind == Masked then ':' else ',';
      i := i + 1;
    }
  }

  // ---------------------------------------------------------------- reading

  /** The copy loop of `lookup_port`: a backslash takes the next character as it is. */
  function Copied(s: string, i: nat): string
    requires i <= |s|
    decreases |s| - i
  {
    if i == |s| then ""
    else if s[i] == '\\' then
      (if i + 1 < |s| then [s[i + 1]] + Copied(s, i + 2) else [s[i]] + Copied(s, i + 1))
    else if s[i] == ',' then ""
    else [s[i]] + Copied(s, i + 1)
  }

  /** `lookup_port` on a list element; `services` looks up names. */
  function Lookup(arg: string, services: string -> Option<nat>): (r: Option<nat>)
    ensures r.Some? ==> r.value < 0x1_0000
  {
    var buf := Copied(if |arg| > 31 then arg[..31] else arg, 0);
    var (val, e) := Strtoul(buf);
    if buf == "" || e < |buf| then
      var p := services(buf);
      if p.Some? then Some(p.value % 0x1_0000) else None
    else if 0 <= AsInt(val) <= 0xFFFF then Some(val)
    else None
  }

  /** Where the first separator is; an escaped one does not count. */
  function FirstSeparator(s: string, i: nat): (p: nat)
    requires i <= |s|
    ensures i <= p <= |s|
    decreases |s| - i
  {
    if i == |s| || s[i] == ',' || s[i] == '-' || s[i] == ':' then i
    else if s[i] == '\\' && i + 1 < |s| then FirstSeparator(s, i + 2)
    else FirstSeparator(s, i + 1)
  }

  function OrDefault(arg: string, default: nat, services: string -> Option<nat>): (r: Option<nat>)
    requires default < 0x1_0000
    ensures r.Some? ==> r.value < 0x1_0000
  {
    if arg == "" then Some(default) else Lookup(arg, services)
  }

  /** The elements of a comma-separated list. */
  function List(s: string, services: string -> Option<nat>): (r: Option<seq<nat>>)
    ensures r.Some? ==> Ports(r.value) && |r.value| > 0
    decreases |s|
  {
    var c := IndexOf(s, ',', 0);
    var p := Lookup(if c == -1 then s else s[..c], services);
    if p.None? then None
    else if c == -1 then Some([p.value])
    else
      var rest := List(s[c + 1..], services);
      if rest.None? then None else Some([p.value] + rest.value)
  }

  datatype Parsed = Parsed(kind: Kind, ports: seq<nat>)

  /** The ports that an argument of `fill_port` stands for, if it has no error. */
  function Parse(arg: string, services: string -> Option<nat>): Option<Parsed> {
    var s := FirstSeparator(arg, 0);
    if s == |arg| || arg[s] == ',' then
      var all := List(arg, services);
      if all.None? then None else Some(Parsed(Plain, all.value))
    else if IndexOf(arg[..s], ',', 0) != -1 then None
    else ParsePair(if arg[s] == ':' then Masked else Range, arg[..s], arg[s + 1..], services)
  }

  /** A range or a masked port, and the list behind it. */
  function ParsePair(kind: Kind, head: string, rest: string, services: string -> Option<nat>): Option<Parsed> {
    var c := IndexOf(rest, ',', 0);
    var first := OrDefault(head, 0, services);
    var second := OrDefault(if c == -1 then rest else rest[..c], 0xFFFF, services);
    if first.None? || second.None? then None
    else if c == -1 then Some(Parsed(kind, [first.value, second.value]))
    else
      var more := List(rest[c + 1..], services);
      if more.None? then None else Some(Parsed(kind, [first.value, second.value] + more.value))
  }

  /** `add_port`. */
  method AddPort(cnt: nat, ports: array<nat>, off: nat, port: nat) returns (ok: bool, cnt': nat)
    requires ports.Length == IP_FW_MAX_PORTS
    modifies ports
    ensures ok <==> off + cnt < IP_FW_MAX_PORTS
    ensures ok ==> cnt' == cnt + 1 && ports[..] == old(ports[..])[off + cnt := port]
    ensures !ok ==> cnt' == cnt && ports[..] == old(ports[..])
  {
    ok, cnt' := false, cnt;
    if off + cnt >= IP_FW_MAX_PORTS {
      return;
    }
    ports[off + cnt] := port;
    ok, cnt' := true, cnt + 1;
  }

  /** `was` with `list` stored from position `at` on. */
  function StoredAt(was: seq<nat>, at: nat, list: seq<nat>): (now: seq<nat>)
    requires at + |list| <= |was|
    ensures |now| == |was|
  {
    was[..at] + list + was[at + |list|..]
  }

  lemma StoredNext(was: seq<nat>, at: nat, list: seq<nat>, p: nat)
    requires at + |list| < |was|
    ensures StoredAt(was, at, list)[at + |list| := p] == StoredAt(was, at, list + [p])
  {
  }

  lemma StoredNone(was: seq<nat>, at: nat)
    requires at <= |was|
    ensures StoredAt(was, at, []) == was
  {
  }

  /** The closing loop of `fill_port`: add every element of a list. */
  method AddList(arg0: string, cnt0: nat, ports: array<nat>, off: nat, services: string -> Option<nat>)
      returns (ok: bool, cnt: nat)
    requires ports.Length == IP_FW_MAX_PORTS && off + cnt0 <= IP_FW_MAX_PORTS
    modifies ports
    ensures var list := List(arg0, services);
      && (ok <==> list.Some? && off + cnt0 + |list.value| <= IP_FW_MAX_PORTS)
      && (ok ==> cnt == cnt0 + |list.value|)
      && (ok ==> ports[..] == StoredAt(old(ports[..]), off + cnt0, list.value))
  {
    hide Lookup, List, IndexOf, StoredAt, Joined;
    ok, cnt := true, cnt0;
    var arg, more := arg0, true;
    ghost var was, all := ports[..], List(arg0, services);
    ghost var done: seq<nat> := [];
    StoredNone(was, off + cnt0);
    JoinedAtFirst(all);
    while more
      invariant ok && cnt == cnt0 + |done| && off + cnt <= IP_FW_MAX_PORTS
      invariant ports[..] == StoredAt(was, off + cnt0, done)
      invariant more ==> Joined(all, done, List(arg, services))
      invariant !more ==> all == Some(done)
      decreases more, |arg|
    {
      var c := Strchr(arg, ',');
      ListStep(all, done, arg, services);
      var port := Lookup(if c == -1 then arg else arg[..c], services);
      if port.None? {
        return false, cnt;
      }
      ok, cnt := AddPort(cnt, ports, off, port.value);
      if !ok {
        return;
      }
      StoredNext(was, off + cnt0, done, port.value);
      done := done + [port.value];
      if c == -1 {
        more := false;
      } else {
        arg := arg[c + 1..];
      }
    }
  }

  lemma JoinedAtFirst(all: Option<seq<nat>>)
    requires all.Some? ==> |all.value| > 0
    ensures Joined(all, [], all)
  {
    if all.Some? {
      assert [] + all.value == all.value;
    }
  }

  lemma ListIs(s: string, services: string -> Option<nat>)
    ensures var c := IndexOf(s, ',', 0);
      var p := Lookup(if c == -1 then s else s[..c], services);
      List(s, services) ==
        if p.None? then None
        else if c == -1 then Some([p.value])
        else
          var rest := List(s[c + 1..], services);
          if rest.None? then None else Some([p.value] + rest.value)
  {
    hide Lookup, IndexOf;
  }

  lemma ListStep(all: Option<seq<nat>>, done: seq<nat>, arg: string, services: string -> Option<nat>)
    requires Joined(all, done, List(arg, services))
    ensures var c := IndexOf(arg, ',', 0);
      var p := Lookup(if c == -1 then arg else arg[..c], services);
      if p.None? then all.None?
      else if c == -1 then all == Some(done + [p.value])
      else Joined(all, done + [p.value], List(arg[c + 1..], services))
    ensures all.Some? ==> |all.value| > |done|
  {
    hide Lookup, List, IndexOf;
    ListIs(arg, services);
    var c := IndexOf(arg, ',', 0);
    var p := Lookup(if c == -1 then arg else arg[..c], services);
    if p.Some? && c != -1 {
      var rest := List(arg[c + 1..], services);
      if rest.Some? {
        assert done + ([p.value] + rest.value) == done + [p.value] + rest.value;
      }
    }
  }

  /** `all` is the list `done` followed by `rest`, if that has no error. */
  predicate Joined(all: Option<seq<nat>>, done: seq<nat>, rest: Option<seq<nat>>) {
    (rest.None? ==> all.None?) && (rest.Some? ==> all == Some(done + rest.value) && |rest.value| > 0)
  }

  /** `fill_port`: a range or a masked port may only come first.  It fails on the first error, when it may
      have stored some ports already. */
  method FillPort(arg: string, ports: array<nat>, off: nat, services: string -> Option<nat>)
      returns (ok: bool, kind: Kind, cnt: nat)
    requires ports.Length == IP_FW_MAX_PORTS && off <= IP_FW_MAX_PORTS
    modifies ports
    ensures Filled(Parse(arg, services), ok, kind, cnt, old(ports[..]), ports[..], off)
  {
    hide Lookup, FirstSeparator, List, ParsePair, IndexOf;
    ok, kind, cnt := false, Plain, 0;
    var s := FirstSeparator(arg, 0);
    if s == |arg| || arg[s] == ',' {
      ok, cnt := AddList(arg, 0, ports, off, services);
      return;
    }
    kind := if arg[s] == ':' then Masked else Range;
    var c := Strchr(arg[..s], ',');
    if c == -1 {
      ok, cnt := FillPair(kind, arg[..s], arg[s + 1..], ports, off, services);
    }
  }

  /** The ports have been stored if there was no error and no more of them than there is room for. */
  ghost predicate Filled(p: Option<Parsed>, ok: bool, kind: Kind, cnt: nat, was: seq<nat>, now: seq<nat>, off: nat)
    requires off <= |was| == IP_FW_MAX_PORTS
  {
    && (ok <==> p.Some? && off + |p.value.ports| <= IP_FW_MAX_PORTS)
    && (ok ==> kind == p.value.kind && cnt == |p.value.ports|)
    && (ok ==> now == StoredAt(was, off, p.value.ports))
  }

  /** The part of `fill_port` for a range or a masked port. */
  method FillPair(kind: Kind, head: string, rest: string, ports: array<nat>, off: nat, services: string -> Option<nat>)
      returns (ok: bool, cnt: nat)
    requires ports.Length == IP_FW_MAX_PORTS && off <= IP_FW_MAX_PORTS
    modifies ports
    ensures Filled(ParsePair(kind, head, rest, services), ok, kind, cnt, old(ports[..]), ports[..], off)
  {
    hide Lookup, OrDefault, List, IndexOf, ParsePair, Filled;
    ghost var was := ports[..];
    var c := Strchr(rest, ',');
    var first := OrDefault(head, 0, services);
    var second := OrDefault(if c == -1 then rest else rest[..c], 0xFFFF, services);
    ok := AddPair(ports, off, first, second);
    cnt := 2;
    ghost var pair := ports[..];
    if !ok {
      PairFails(kind, head, rest, services, was, ports[..], off, cnt);
      return;
    }
    if c != -1 {
      ok, cnt := AddList(rest[c + 1..], cnt, ports, off, services);
    }
    PairFilled(kind, head, rest, services, was, pair, ports[..], off, ok, cnt);
  }

  lemma PairFails(kind: Kind, head: string, rest: string, services: string -> Option<nat>,
                  was: seq<nat>, now: seq<nat>, off: nat, cnt: nat)
    requires off <= |was| == IP_FW_MAX_PORTS
    requires var c := IndexOf(rest, ',', 0);
      || OrDefault(head, 0, services).None? || OrDefault(if c == -1 then rest else rest[..c], 0xFFFF, services).None?
      || off + 2 > IP_FW_MAX_PORTS
    ensures Filled(ParsePair(kind, head, rest, services), false, kind, cnt, was, now, off)
  {
    hide Lookup, OrDefault, List, IndexOf, ParsePair;
    ParsePairIs(kind, head, rest, services);
  }

  lemma PairFilled(kind: Kind, head: string, rest: string, services: string -> Option<nat>,
                   was: seq<nat>, pair: seq<nat>, now: seq<nat>, off: nat, ok: bool, cnt: nat)
    requires off + 2 <= |was| == IP_FW_MAX_PORTS
    requires var c := IndexOf(rest, ',', 0);
      var first, second :=
        OrDefault(head, 0, services), OrDefault(if c == -1 then rest else rest[..c], 0xFFFF, services);
      && first.Some? && second.Some? && pair == was[off := first.value][off + 1 := second.value]
      && if c == -1 then ok && cnt == 2 && now == pair
         else
           var list := List(rest[c + 1..], services);
           && (ok <==> list.Some? && off + 2 + |list.value| <= IP_FW_MAX_PORTS)
           && (ok ==> cnt == 2 + |list.value| && now == StoredAt(pair, off + 2, list.value))
    ensures Filled(ParsePair(kind, head, rest, services), ok, kind, cnt, was, now, off)
  {
    hide Lookup, OrDefault, List, IndexOf, ParsePair;
    var c := IndexOf(rest, ',', 0);
    var first, second :=
      OrDefault(head, 0, services), OrDefault(if c == -1 then rest else rest[..c], 0xFFFF, services);
    ParsePairIs(kind, head, rest, services);
    PairStored(was, off, first.value, second.value);
    if c != -1 && ok {
      ListStored(was, pair, off, first.value, second.value, List(rest[c + 1..], services).value);
    }
  }

  lemma ParsePairIs(kind: Kind, head: string, rest: string, services: string -> Option<nat>)
    ensures var c := IndexOf(rest, ',', 0);
      var first := OrDefault(head, 0, services);
      var second := OrDefault(if c == -1 then rest else rest[..c], 0xFFFF, services);
      ParsePair(kind, head, rest, services) ==
        if first.None? || second.None? then None
        else if c == -1 then Some(Parsed(kind, [first.value, second.value]))
        else
          var more := List(rest[c + 1..], services);
          if more.None? then None else Some(Parsed(kind, [first.value, second.value] + more.value))
  {
    hide Lookup, OrDefault, List, IndexOf;
  }

  /** Add the first two ports, each when it has been looked up. */
  method AddPair(ports: array<nat>, off: nat, first: Option<nat>, second: Option<nat>) returns (ok: bool)
    requires ports.Length == IP_FW_MAX_PORTS && off <= IP_FW_MAX_PORTS
    modifies ports
    ensures ok <==> first.Some? && second.Some? && off + 2 <= IP_FW_MAX_PORTS
    ensures ok ==> ports[..] == old(ports[..])[off := first.value][off + 1 := second.value]
  {
    var cnt := 0;
    ok := false;
    if first.None? {
      return;
    }
    ok, cnt := AddPort(cnt, ports, off, first.value);
    if !ok || second.None? {
      return false;
    }
    ok, cnt := AddPort(cnt, ports, off, second.value);
  }

  lemma PairStored(was: seq<nat>, off: nat, a: nat, b: nat)
    requires off + 2 <= |was|
    ensures was[off := a][off + 1 := b] == StoredAt(was, off, [a, b])
  {
  }

  lemma ListStored(was: seq<nat>, pair: seq<nat>, off: nat, a: nat, b: nat, list: seq<nat>)
    requires off + 2 + |list| <= |was| == |pair| && pair == was[off := a][off + 1 := b]
    ensures StoredAt(pair, off + 2, list) == StoredAt(was, off, [a, b] + list)
  {
  }

  // ---------------------------------------------------------------- what is printed is read back

  lemma {:induction false} CopiedPlain(s: string, i: nat)
    requires i <= |s| && forall k :: i <= k < |s| ==> s[k] != '\\' && s[k] != ','
    ensures Copied(s, i) == s[i..]
    decreases |s| - i
  {
    if i < |s| {
      CopiedPlain(s, i + 1);
    }
  }

  lemma DecShort(n: nat)
    requires n < 0x1_0000
    ensures |Dec(n)| <= 5
  {
    assert n / 10 < 6554 && n / 10 / 10 < 656 && n / 10 / 10 / 10 < 66 && n / 10 / 10 / 10 / 10 < 7;
    assert |Dec(n / 10 / 10 / 10 / 10)| == 1;
    assert |Dec(n / 10 / 10 / 10)| <= 2;
    assert |Dec(n / 10 / 10)| <= 3;
    assert |Dec(n / 10)| <= 4;
  }

  lemma LookupOfDec(n: nat, services: string -> Option<nat>)
    requires n < 0x1_0000
    ensures Lookup(Dec(n), services) == Some(n)
  {
    hide Dec, Strtoul;
    DecDigits(n);
    DecShort(n);
    CopiedPlain(Dec(n), 0);
    StrtoulOfDec(n);
  }

  lemma HexDigits(n: nat)
    requires n < 0x1_0000
    ensures |Hex4(n)| == 6 && forall i :: 0 <= i < 6 ==> Hex4(n)[i] !in ['\\', ',', ':', '-']
  {
    DigitValue(n / 0x1000);
    DigitValue(n / 0x100 % 16);
    DigitValue(n / 16 % 16);
    DigitValue(n % 16);
  }

  lemma LookupOfHex(n: nat, services: string -> Option<nat>)
    requires n < 0x1_0000
    ensures Lookup(Hex4(n), services) == Some(n)
  {
    hide Hex4, Strtoul;
    HexDigits(n);
    CopiedPlain(Hex4(n), 0);
    StrtoulOfHex(n);
  }

  lemma {:induction false} SeparatorAt(s: string, i: nat, p: nat)
    requires i <= p <= |s| && (forall k :: i <= k < p ==> s[k] !in ['\\', ',', ':', '-'])
    requires p < |s| ==> s[p] in [',', ':', '-']
    ensures FirstSeparator(s, i) == p
    decreases p - i
  {
    if i < p {
      SeparatorAt(s, i + 1, p);
    }
  }

  /** A string cut at its first separator. */
  lemma CutAt(a: string, sep: char, b: string)
    requires forall k :: 0 <= k < |a| ==> a[k] !in ['\\', ',', ':', '-']
    ensures var s := a + ([sep] + b);
      && s[..|a|] == a && s[|a|] == sep && s[|a| + 1..] == b
      && (sep == ',' ==> IndexOf(s, ',', 0) == |a|)
      && (sep in [',', ':', '-'] ==> FirstSeparator(s, 0) == |a|)
    ensures IndexOf(a, ',', 0) == -1 && FirstSeparator(a, 0) == |a|
  {
    var s := a + ([sep] + b);
    if sep == ',' {
      NoIndex(s, ',', 0, |a|);
    }
    if sep in [',', ':', '-'] {
      SeparatorAt(s, 0, |a|);
    }
    NoIndex(a, ',', 0, |a|);
    SeparatorAt(a, 0, |a|);
  }

  lemma ListCons(a: string, b: string, p: nat, rest: seq<nat>, services: string -> Option<nat>)
    requires (forall k :: 0 <= k < |a| ==> a[k] !in ['\\', ',', ':', '-']) && Lookup(a, services) == Some(p)
    ensures List(a, services) == Some([p])
    ensures List(b, services) == Some(rest) ==> List(a + ([','] + b), services) == Some([p] + rest)
  {
    hide Lookup, IndexOf;
    CutAt(a, ',', b);
  }

  /** A list of decimal ports is read back. */
  lemma {:induction false} ListOfText(kind: Kind, ports: seq<nat>, i: nat, services: string -> Option<nat>)
    requires Ports(ports) && i < |ports| && (i > 0 || kind == Plain)
    ensures List(Dec(ports[i]) + TextFrom(kind, ports, i + 1), services) == Some(ports[i..])
    decreases |ports| - i
  {
    hide Dec, Lookup, TextFrom, List;
    var d := Dec(ports[i]);
    DecDigits(ports[i]);
    LookupOfDec(ports[i], services);
    if i + 1 == |ports| {
      NoText(kind, ports);
      assert d + "" == d;
      ListCons(d, "", ports[i], [], services);
      assert ports[i..] == [ports[i]];
    } else {
      TextStep(kind, ports, i + 1);
      ListOfText(kind, ports, i + 1, services);
      ListCons(d, Dec(ports[i + 1]) + TextFrom(kind, ports, i + 2), ports[i], ports[i + 1..], services);
      assert ports[i..] == [ports[i]] + ports[i + 1..];
    }
  }

  /** The argument that was printed, behind its blank. */
  function Argument(kind: Kind, ports: seq<nat>): string
    requires Ports(ports) && |ports| > 0
  {
    PortText(' ', ports[0]) + TextFrom(kind, ports, 1)
  }

  /** `fill_port` reads back what `show_ipfw` prints: the ports and their kind. */
  lemma PortsReadBack(kind: Kind, ports: seq<nat>, services: string -> Option<nat>)
    requires Ports(ports) && |ports| > 0 && (kind != Plain ==> |ports| > 1)
    ensures TextFrom(kind, ports, 0) == [' '] + Argument(kind, ports)
    ensures Parse(Argument(kind, ports), services) == Some(Parsed(kind, ports))
  {
    hide Dec, Hex4, Lookup, List, TextFrom, IndexOf, FirstSeparator, ParsePair;
    var d := Dec(ports[0]);
    DecDigits(ports[0]);
    TextStep(kind, ports, 0);
    if kind == Plain {
      ListOfText(kind, ports, 0, services);
      assert ports[0..] == ports;
    }
    if |ports| == 1 {
      NoText(kind, ports);
      assert d + "" == d;
      CutAt(d, ',', "");
    } else {
      TextStep(kind, ports, 1);
      CutAt(d, Comma(kind, 1), PortText(Comma(kind, 1), ports[1]) + TextFrom(kind, ports, 2));
      if kind != Plain {
        PairReadBack(kind, ports, services);
      }
    }
  }

  /** A range or a masked port, and the list behind it. */
  lemma PairReadBack(kind: Kind, ports: seq<nat>, services: string -> Option<nat>)
    requires Ports(ports) && |ports| > 1 && kind != Plain
    ensures ParsePair(kind, Dec(ports[0]), PortText(Comma(kind, 1), ports[1]) + TextFrom(kind, ports, 2), services)
         == Some(Parsed(kind, ports))
  {
    hide Dec, Hex4, Lookup, List, TextFrom, IndexOf;
    var x := PortText(Comma(kind, 1), ports[1]);
    LookupOfDec(ports[0], services);
    SecondLookup(kind, ports[1], services);
    if |ports| == 2 {
      NoText(kind, ports);
      assert x + "" == x;
      CutAt(x, ',', "");
      assert ports == [ports[0], ports[1]];
    } else {
      TextStep(kind, ports, 2);
      CutAt(x, ',', Dec(ports[2]) + TextFrom(kind, ports, 3));
      ListOfText(kind, ports, 2, services);
      assert ports == [ports[0], ports[1]] + ports[2..];
    }
  }

  lemma SecondLookup(kind: Kind, port: nat, services: string -> Option<nat>)
    requires port < 0x1_0000 && kind != Plain
    ensures var x := PortText(Comma(kind, 1), port);
      && x != "" && Lookup(x, services) == Some(port)
      && forall k :: 0 <= k < |x| ==> x[k] !in ['\\', ',', ':', '-']
  {
    hide Dec, Hex4, Lookup;
    DecDigits(port);
    HexDigits(port);
    LookupOfDec(port, services);
    LookupOfHex(port, services);
  }
}
