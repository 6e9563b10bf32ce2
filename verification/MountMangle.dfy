/** `mangle` turns an option list into arguments, without "rw"; `mount_ufs` reads them again. */
module MountMangle {
  import opened Common
  import opened MountOpts
  import opened MountUpdate
  import opened MountFlags

  // ---------------------------------------------------------------- the arguments

  predicate Dashed(t: string) {
    t != "" && t[0] == '-'
  }

  /** The place of the first equals sign from `i` on, or the end. */
  function EqualsAt(t: string, i: nat): (e: nat)
    requires i <= |t|
    ensures i <= e <= |t|
    decreases |t| - i
  {
    if i == |t| || t[i] == '=' then i else EqualsAt(t, i + 1)
  }

  /** The arguments for one option: one that begins with a dash stands for itself, cut at an equals sign. */
  function Argument(t: string): seq<string> {
    if Dashed(t) then
      var e := EqualsAt(t, 0);
      if e == |t| then [t] else [t[..e], t[e + 1..]]
    else if t == "rw" then []
    else ["-o", t]
  }

  function Arguments(list: seq<string>): seq<string> {
    if list == [] then [] else Arguments(list[..|list| - 1]) + Argument(list[|list| - 1])
  }

  lemma ArgumentsNext(list: seq<string>, t: string)
    ensures Arguments(list + [t]) == Arguments(list) + Argument(t)
  {
    assert (list + [t])[..|list|] == list;
  }

  /** `strchr` for an equals sign. */
  method FindEquals(t: string) returns (e: nat)
    ensures e == EqualsAt(t, 0)
  {
    e := 0;
    while e < |t| && t[e] != '='
      invariant e <= |t| && EqualsAt(t, e) == EqualsAt(t, 0)
    {
      e := e + 1;
    }
  }

  /** `mangle`: append the arguments for the options that are not empty. */
  method Mangle(options: string, argv0: seq<string>) returns (argv: seq<string>)
    ensures argv == argv0 + Arguments(NonEmpty(Split(options)))
  {
    hide Tokens, NonEmpty, Argument, Arguments;
    argv := argv0;
    var p: int := 0;
    ghost var done: seq<string> := [];
    NoArguments();
    while p >= 0
      invariant -1 <= p <= |options| && NonEmpty(Split(options)) == done + NonEmpty(Rest(options, p))
      invariant argv == argv0 + Arguments(done)
      decreases if p >= 0 then |options| + 1 - p else 0
    {
      NextNonEmpty(options, p, done);
      var t := options[p..TokenEnd(options, p)];
      p := After(options, p);
      if t != "" {
        ArgumentsNext(done, t);
        ArgumentIs(t);
        if t[0] == '-' {
          var e := FindEquals(t);
          if e < |t| {
            argv := argv + [t[..e], t[e + 1..]];
          } else {
            argv := argv + [t];
          }
        } else if t != "rw" {
          argv := argv + ["-o", t];
        }
        done := done + [t];
      }
    }
    assert done + [] == done;
  }

  lemma NoArguments()
    ensures Arguments([]) == [] && NonEmpty([]) == []
  {
  }

  lemma ArgumentIs(t: string)
    requires t != ""
    ensures t[0] == '-' && EqualsAt(t, 0) < |t| ==> Argument(t) == [t[..EqualsAt(t, 0)], t[EqualsAt(t, 0) + 1..]]
    ensures t[0] == '-' && EqualsAt(t, 0) == |t| ==> Argument(t) == [t]
    ensures t[0] != '-' ==> Argument(t) == if t == "rw" then [] else ["-o", t]
  {
  }

  // ---------------------------------------------------------------- reading them

  /** The options that `getopt` finds behind -o in the arguments before the device and the directory; None
      for a usage error. */
  function Read(args: seq<string>): Option<seq<string>> {
    if args == [] then Some([])
    else if args[0] == "-o" then
      if |args| == 1 then None else Behind(args[1], Read(args[2..]))
    else if |args[0]| > 2 && args[0][..2] == "-o" then Behind(args[0][2..], Read(args[1..]))
    else if args == ["--"] then Some([])
    else None
  }

  function Behind(options: string, rest: Option<seq<string>>): Option<seq<string>> {
    if rest.None? then None else Some(NonEmpty(Split(options)) + rest.value)
  }

  /** The loop of `mount_ufs`: the flags, unless it exits. */
  method UfsFlags(args: seq<string>, table: seq<MntOpt>) returns (ok: bool, f: Flags)
    ensures ok <==> Read(args).Some? && AllRecognised(table, Read(args).value)
    ensures ok ==> f == Fold(table, Flags(0, 0), Read(args).value)
  {
    hide Tokens, NonEmpty, Fold, Recognised;
    ok, f := true, Flags(0, 0);
    var i := 0;
    ghost var done: seq<string> := [];
    NothingFolded(table, f);
    assert args[0..] == args && (Read(args).Some? ==> [] + Read(args).value == Read(args).value);
    while i < |args|
      invariant i <= |args| && AllRecognised(table, done) && f == Fold(table, Flags(0, 0), done)
      invariant Read(args) == match Read(args[i..]) case None => None case Some(r) => Some(done + r)
    {
      var arg, options := args[i], "";
      ReadStep(args, i);
      if arg == "-o" {
        if i + 1 == |args| {
          return false, f;
        }
        options := args[i + 1];
        i := i + 2;
      } else if |arg| > 2 && arg[..2] == "-o" {
        options := arg[2..];
        i := i + 1;
      } else if arg == "--" && i + 1 == |args| {
        assert done + [] == done;
        return;
      } else {
        return false, f;
      }
      ghost var before, some := done, NonEmpty(Split(options));
      done := before + some;
      MoreRecognised(table, before, some, Read(args[i..]));
      FoldTwice(table, Flags(0, 0), before, some);
      ok, f := Getmntopts(options, table, f, false);
      if !ok {
        return;
      }
    }
    assert done + [] == done;
  }

  lemma ReadStep(args: seq<string>, i: nat)
    requires i < |args|
    ensures Read(args[i..]) ==
      if args[i] == "-o" then
        if i + 1 == |args| then None else Behind(args[i + 1], Read(args[i + 2..]))
      else if |args[i]| > 2 && args[i][..2] == "-o" then Behind(args[i][2..], Read(args[i + 1..]))
      else if args[i] == "--" && i + 1 == |args| then Some([])
      else None
  {
    var rest := args[i..];
    assert rest[1..] == args[i + 1..];
    if |rest| > 1 {
      assert rest[2..] == args[i + 2..];
    } else {
      assert rest == [args[i]];
    }
  }

  lemma MoreRecognised(table: seq<MntOpt>, done: seq<string>, some: seq<string>, rest: Option<seq<string>>)
    requires AllRecognised(table, done)
    ensures AllRecognised(table, done + some) <==> AllRecognised(table, some)
    ensures rest.Some? ==>
      && done + (some + rest.value) == done + some + rest.value
      && (AllRecognised(table, done + some + rest.value) ==> AllRecognised(table, some))
  {
    hide Recognised;
    forall k | 0 <= k < |some| ensures (done + some)[|done| + k] == some[k] {
    }
    if rest.Some? {
      forall k | 0 <= k < |some| ensures (done + some + rest.value)[|done| + k] == some[k] {
      }
    }
  }

  lemma {:induction false} FoldTwice(table: seq<MntOpt>, f: Flags, a: seq<string>, b: seq<string>)
    ensures Fold(table, f, a + b) == Fold(table, Fold(table, f, a), b)
  {
    hide Fold, Effect;
    if b == [] {
      assert a + b == a;
      NothingFolded(table, Fold(table, f, a));
    } else {
      var front, last := b[..|b| - 1], b[|b| - 1];
      assert b == front + [last] && a + b == a + front + [last];
      FoldTwice(table, f, a, front);
      FoldNext(table, f, a + front, last);
      FoldNext(table, Fold(table, f, a), front, last);
    }
  }

  predicate NoneDashed(list: seq<string>) {
    forall k :: 0 <= k < |list| ==> !Dashed(list[k])
  }

  lemma {:induction false} ReadAppend(a: seq<string>, b: seq<string>)
    requires Read(a).Some? && Read(b).Some? && "--" !in a
    ensures Read(a + b) == Some(Read(a).value + Read(b).value)
    decreases |a|
  {
    hide NonEmpty, Tokens;
    if a == [] {
      assert a + b == b && [] + Read(b).value == Read(b).value;
    } else {
      var ab := a + b;
      assert a[0] in a && ab[0] == a[0];
      if a[0] == "-o" {
        assert |a| > 1 && ab[1] == a[1] && ab[2..] == a[2..] + b;
        ReadAppend(a[2..], b);
        assert Read(ab) == Behind(a[1], Read(ab[2..]));
        BehindAppend(a[1], Read(a[2..]), Read(b));
      } else {
        assert ab[1..] == a[1..] + b && a != ["--"];
        ReadAppend(a[1..], b);
        assert Read(ab) == Behind(a[0][2..], Read(ab[1..]));
        BehindAppend(a[0][2..], Read(a[1..]), Read(b));
      }
    }
  }

  lemma BehindAppend(options: string, r: Option<seq<string>>, b: Option<seq<string>>)
    requires r.Some? && b.Some?
    ensures Behind(options, Some(r.value + b.value)) == Some(Behind(options, r).value + b.value)
  {
    hide NonEmpty;
    var some := NonEmpty(Split(options));
    assert some + (r.value + b.value) == some + r.value + b.value;
  }

  /** What arrives is the list without "rw". */
  lemma {:induction false} ArgumentsRead(list: seq<string>)
    requires Plain(list) && NoneDashed(list)
    ensures Read(Arguments(list)) == Some(Without(list, "rw"))
    ensures "--" !in Arguments(list)
  {
    hide Read, NonEmpty;
    if list == [] {
      NothingRead();
      assert Without([], "rw") == [];
    } else {
      var front, t := list[..|list| - 1], list[|list| - 1];
      assert list == front + [t];
      ArgumentsRead(front);
      ArgumentsNext(front, t);
      WithoutAppend(front, [t], "rw");
      WithoutOne(t, "rw");
      if t == "rw" {
        assert Arguments(front) + [] == Arguments(front) && Without(front, "rw") + [] == Without(front, "rw");
      } else {
        OneRead(t);
        ReadAppend(Arguments(front), ["-o", t]);
      }
    }
  }

  lemma NothingRead()
    ensures Read([]) == Some([])
  {
  }

  lemma OneRead(t: string)
    requires t != "" && CommaFree(t)
    ensures Read(["-o", t]) == Some([t])
  {
    SplitOne(t);
    NonEmptyOne(t);
    assert ["-o", t][2..] == [];
  }

  // ---------------------------------------------------------------- when the flags are the same

  function Among(x: bv32, m: bv32): bv32 {
    x & m
  }

  /** The bits of `m` that are set. */
  function Bits(m: MntOpt, f: Flags): bv32 {
    Among(if m.alt then f.alt else f.main, m.flag)
  }

  predicate Touches(m: MntOpt, n: MntOpt) {
    n.alt == m.alt && Among(n.flag, m.flag) != 0
  }

  /** Every entry sets or clears all bits of `m`, or none. */
  predicate AllOrNone(table: seq<MntOpt>, m: MntOpt) {
    forall k :: 0 <= k < |table| && Touches(m, table[k]) ==> Among(table[k].flag, m.flag) == m.flag
  }

  /** What the last token that touches the bits of `m` says of them. */
  function Says(table: seq<MntOpt>, m: MntOpt, list: seq<string>): Option<bool> {
    if list == [] then None
    else
      var t := list[|list| - 1];
      var e := Entry(table, Body(t), 0);
      if e < |table| && Touches(m, table[e]) then Some(StartsWithNo(t) == table[e].inverse)
      else Says(table, m, list[..|list| - 1])
  }

  lemma UntouchedOn(x: bv32, m: bv32, n: bv32)
    requires Among(n, m) == 0
    ensures Among(PutWord(x, n, true), m) == Among(x, m)
  {
  }

  lemma UntouchedOff(x: bv32, m: bv32, n: bv32)
    requires Among(n, m) == 0
    ensures Among(PutWord(x, n, false), m) == Among(x, m)
  {
  }

  lemma TouchedOn(x: bv32, m: bv32, n: bv32)
    requires Among(n, m) == m
    ensures Among(PutWord(x, n, true), m) == m
  {
  }

  lemma TouchedOff(x: bv32, m: bv32, n: bv32)
    requires Among(n, m) == m
    ensures Among(PutWord(x, n, false), m) == 0
  {
  }

  lemma WordBits(x: bv32, m: bv32, n: bv32, on: bool)
    requires Among(n, m) == 0 || Among(n, m) == m
    ensures Among(PutWord(x, n, on), m) == if Among(n, m) == 0 then Among(x, m) else if on then m else 0
  {
    hide Among, PutWord;
    if Among(n, m) == 0 {
      if on {
        UntouchedOn(x, m, n);
      } else {
        UntouchedOff(x, m, n);
      }
    } else if on {
      TouchedOn(x, m, n);
    } else {
      TouchedOff(x, m, n);
    }
  }

  /** One token. */
  lemma BitsPut(m: MntOpt, n: MntOpt, on: bool, f: Flags)
    requires Touches(m, n) ==> Among(n.flag, m.flag) == m.flag
    ensures Bits(m, Put(f, n, on)) == if !Touches(m, n) then Bits(m, f) else if on then m.flag else 0
  {
    hide PutWord, Among;
    if n.alt == m.alt {
      WordBits(if m.alt then f.alt else f.main, m.flag, n.flag, on);
    }
  }

  lemma {:induction false} BitsSaid(table: seq<MntOpt>, m: MntOpt, f: Flags, list: seq<string>)
    requires AllOrNone(table, m)
    ensures Bits(m, Fold(table, f, list)) ==
      match Says(table, m, list) case None => Bits(m, f) case Some(on) => if on then m.flag else 0
  {
    hide Fold, Put, Bits, Entry, Body, Among;
    if list == [] {
      NothingFolded(table, f);
    } else {
      var front, t := list[..|list| - 1], list[|list| - 1];
      assert list == front + [t];
      BitsSaid(table, m, f, front);
      FoldNext(table, f, front, t);
      var e := Entry(table, Body(t), 0);
      if e < |table| {
        BitsPut(m, table[e], StartsWithNo(t) == table[e].inverse, Fold(table, f, front));
      }
    }
  }

  lemma WordWhole(x: bv32, y: bv32, m: bv32)
    requires Others(x, m) == Others(y, m) && Among(x, m) == Among(y, m)
    ensures x == y
  {
    WordParts(x, m);
    WordParts(y, m);
  }

  lemma WordParts(x: bv32, m: bv32)
    ensures x == (x & m) | (x & !m)
  {
  }

  lemma SameBits(m: MntOpt, a: Flags, b: Flags)
    requires Same(m, a, b)
    ensures a == b <==> Bits(m, a) == Bits(m, b)
  {
    hide Others, Among;
    if Bits(m, a) == Bits(m, b) {
      if m.alt {
        WordWhole(a.alt, b.alt, m.flag);
      } else {
        WordWhole(a.main, b.main, m.flag);
      }
    }
  }

  /** "rw" clears the bits of its entry, so what is said without it can only say more. */
  lemma {:induction false} SaidWithout(table: seq<MntOpt>, m: MntOpt, list: seq<string>)
    requires Clears(table, m)
    ensures Says(table, m, list) == Some(true) ==> Says(table, m, Without(list, "rw")) == Some(true)
    ensures Says(table, m, list) == None ==> Says(table, m, Without(list, "rw")) == None
  {
    hide Entry, Body, Among;
    if list == [] {
      assert Without([], "rw") == [];
    } else {
      var front, t := list[..|list| - 1], list[|list| - 1];
      assert list == front + [t];
      SaidWithout(table, m, front);
      WithoutAppend(front, [t], "rw");
      WithoutOne(t, "rw");
      if t == "rw" {
        assert Without(list, "rw") == Without(front, "rw");
      } else {
        assert Without(list, "rw")[..|Without(front, "rw")|] == Without(front, "rw");
      }
    }
  }

  /** `m` is the entry of "rw", which clears its flag. */
  predicate Clears(table: seq<MntOpt>, m: MntOpt) {
    && Recognised(table, "rw") && m == table[Entry(table, Body("rw"), 0)]
    && m.inverse && m.flag != 0 && !StartsWithNo("rw")
  }

  /** Dropping "rw" keeps the flags unless its last word about the bits of "rw" is to clear them and the last
      word of the other options is to set them. */
  lemma DroppingExact(table: seq<MntOpt>, m: MntOpt, list: seq<string>)
    requires Clears(table, m) && AllOrNone(table, m)
    ensures Fold(table, Flags(0, 0), Without(list, "rw")) == Fold(table, Flags(0, 0), list) <==>
      !(Says(table, m, list) == Some(false) && Says(table, m, Without(list, "rw")) == Some(true))
  {
    hide Fold, Entry, Body, Says, Among, Same;
    var e := Entry(table, Body("rw"), 0);
    var a, b := Fold(table, Flags(0, 0), Without(list, "rw")), Fold(table, Flags(0, 0), list);
    CoversItself(m);
    WithoutSame(table, Flags(0, 0), list, "rw", e);
    SameBits(m, a, b);
    BitsSaid(table, m, Flags(0, 0), list);
    BitsSaid(table, m, Flags(0, 0), Without(list, "rw"));
    SaidWithout(table, m, list);
    NoBits(m.flag);
    assert Bits(m, Flags(0, 0)) == 0;
  }

  lemma NoBits(m: bv32)
    ensures Among(0, m) == 0
  {
  }

  /** So the flags that arrive are those of the list, unless "rw" has the last word about them in the list
      and is contradicted by what is left without it. */
  lemma ArrivesExact(table: seq<MntOpt>, m: MntOpt, list: seq<string>)
    requires Clears(table, m) && AllOrNone(table, m) && Plain(list) && NoneDashed(list)
    ensures var arrived := Read(Arguments(list));
      && arrived.Some? && arrived.value == Without(list, "rw")
      && (Fold(table, Flags(0, 0), arrived.value) == Fold(table, Flags(0, 0), list) <==>
           !(Says(table, m, list) == Some(false) && Says(table, m, arrived.value) == Some(true)))
  {
    hide Fold, Read, Says, Clears, AllOrNone;
    ArgumentsRead(list);
    DroppingExact(table, m, list);
  }

  /** With the options of the local file systems "ro,rw" means read and write, but arrives as read-only. */
  lemma ReadOnlyArrives(table: seq<MntOpt>, r: bv32)
    requires |table| == |UfsNames()| && forall k :: 0 <= k < |table| ==> table[k].name == UfsNames()[k]
    requires r != 0 && table[2] == MntOpt("ro", false, r, false) && table[3] == MntOpt("rw", true, r, false)
    ensures Read(Arguments(["ro", "rw"])) == Some(["ro"])
    ensures Fold(table, Flags(0, 0), ["ro", "rw"]) == Flags(0, 0) && Fold(table, Flags(0, 0), ["ro"]) == Flags(r, 0)
  {
    hide Fold, Read, Arguments, Put, Entry, Body;
    var list := ["ro", "rw"];
    assert [] + ["ro"] == ["ro"] && ["ro"] + ["rw"] == list;
    ArgumentsRead(list);
    WithoutAppend(["ro"], ["rw"], "rw");
    WithoutOne("ro", "rw");
    WithoutOne("rw", "rw");
    assert Without(list, "rw") == ["ro"];
    RoRw(table);
    NothingFolded(table, Flags(0, 0));
    FoldNext(table, Flags(0, 0), [], "ro");
    FoldNext(table, Flags(0, 0), ["ro"], "rw");
    SetAndCleared(r);
  }

  lemma RoRw(table: seq<MntOpt>)
    requires |table| == |UfsNames()| && forall k :: 0 <= k < |table| ==> table[k].name == UfsNames()[k]
    ensures Entry(table, Body("ro"), 0) == 2 && Entry(table, Body("rw"), 0) == 3
    ensures !StartsWithNo("ro") && !StartsWithNo("rw")
  {
    NoEquals("ro");
    NoEquals("rw");
    assert table[0].name == UfsNames()[0] == "userquota" && table[1].name == UfsNames()[1] == "groupquota";
    assert table[2].name == UfsNames()[2] == "ro" && table[3].name == UfsNames()[3] == "rw";
    assert Entry(table, "ro", 1) == Entry(table, "ro", 2) == 2;
    assert Entry(table, "rw", 1) == Entry(table, "rw", 2) == Entry(table, "rw", 3) == 3;
  }

  lemma SetAndCleared(r: bv32)
    ensures Put(Flags(0, 0), MntOpt("ro", false, r, false), true) == Flags(r, 0)
    ensures Put(Flags(r, 0), MntOpt("rw", true, r, false), false) == Flags(0, 0)
  {
  }
}
