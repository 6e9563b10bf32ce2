/** Mount options in letters: lists and their tokens, what meta options stand for, and names in either case. */
module MountExamples {
  import opened Common
  import opened MountOpts
  import opened MountUpdate
  import opened MountFlags
  import opened MountMangle

  // ---------------------------------------------------------------- lists

  /** A list is cut at its commas; an empty list has one empty token. */
  lemma Lists()
    ensures Split("") == [""] && Split("ro") == ["ro"] && Split("ro,dev") == ["ro", "dev"]
    ensures Split("ro,,dev") == ["ro", "", "dev"]
  {
    hide Tokens;
    SplitOne("");
    SplitOne("ro");
    SplitOne("dev");
    TokensConcat("ro", "dev", 0);
    assert "ro,dev" == "ro" + "," + "dev";
    TokensConcat("", "dev", 0);
    TokensConcat("ro", ",dev", 0);
    assert ",dev" == "" + "," + "dev" && "ro,,dev" == "ro" + "," + ",dev";
    assert ["ro"] + ([""] + ["dev"]) == ["ro", "", "dev"];
  }

  lemma NonEmptyTokens()
    ensures NonEmpty(["ro", "", "dev"]) == ["ro", "dev"] && NonEmpty([""]) == []
  {
    NonEmptyOne("");
    NonEmptyOne("dev");
    NonEmptyOne("ro");
    NonEmptyAppend(["ro"], ["", "dev"]);
    NonEmptyAppend([""], ["dev"]);
    assert [""] + ["dev"] == ["", "dev"] && ["ro"] + ["", "dev"] == ["ro", "", "dev"];
  }

  /** And written with commas again. */
  lemma WrittenLists()
    ensures Written([]) == "" && Written(["ro"]) == "ro" && Written(["ro", "dev"]) == "ro,dev"
  {
    hide Written;
    WrittenNone();
    WrittenNext([], "ro");
    WrittenNext(["ro"], "dev");
    assert [] + ["ro"] == ["ro"] && ["ro"] + ["dev"] == ["ro", "dev"];
    assert "ro" + "," + "dev" == "ro,dev";
  }

  /** `remopt` takes every occurrence of an option out, and nothing that only begins like it. */
  lemma Removals()
    ensures Without(["ro", "dev", "ro", "rox"], "ro") == ["dev", "rox"]
    ensures Removed("", "ro") == "" && Removed("ro", "") == "ro"
  {
    assert Without(["rox"], "ro") == ["rox"] && Without(["ro", "rox"], "ro") == ["rox"];
    assert Without(["dev", "ro", "rox"], "ro") == ["dev", "rox"];
  }

  // ---------------------------------------------------------------- meta options

  /** "fstab" stands for the options of the table, "current" for those in force, and any other option for
      itself. */
  lemma MetaOptions(fstab: Ptr, current: string, o: string)
    ensures NonEmpty(TokensOf(Expanded(["fstab"], fstab, current))) == NonEmpty(TokensOf(fstab))
    ensures NonEmpty(TokensOf(Expanded(["current"], fstab, current))) == NonEmpty(Split(current))
    ensures CommaFree(o) && o != "fstab" && o != "current" ==>
      NonEmpty(TokensOf(Expanded([o], fstab, current))) == if o == "" then [] else [o]
  {
    OneExpanded("fstab", fstab, current);
    OneExpanded("current", fstab, current);
    OneExpanded(o, fstab, current);
    if CommaFree(o) {
      SplitOne(o);
      NonEmptyOne(o);
    }
  }

  lemma OneExpanded(o: string, fstab: Ptr, current: string)
    ensures NonEmpty(TokensOf(Expanded([o], fstab, current))) ==
      NonEmpty(TokensOf(if o == "fstab" then fstab else if o == "current" then Text(current) else Text(o)))
  {
    hide NonEmpty, Tokens;
    assert [o][..0] == [];
    NoneExpanded(fstab, current);
  }

  lemma NoneExpanded(fstab: Ptr, current: string)
    ensures Expanded([], fstab, current) == Null && NonEmpty(TokensOf(Null)) == []
    ensures forall a: seq<string> :: NonEmpty(TokensOf(Null)) + a == a
  {
  }

  /** Lists are expanded one token after the other. */
  lemma {:induction false} ExpandedInTurn(a: seq<string>, b: seq<string>, fstab: Ptr, current: string)
    ensures NonEmpty(TokensOf(Expanded(a + b, fstab, current))) ==
      NonEmpty(TokensOf(Expanded(a, fstab, current))) + NonEmpty(TokensOf(Expanded(b, fstab, current)))
  {
    hide NonEmpty, TokensOf, Meta, Catopt, Expanded;
    if b == [] {
      assert a + b == a;
      NoneExpanded(fstab, current);
      assert NonEmpty(TokensOf(Expanded(a, fstab, current))) + [] == NonEmpty(TokensOf(Expanded(a, fstab, current)));
    } else {
      var front, o := b[..|b| - 1], b[|b| - 1];
      assert a + b == (a + front) + [o] && b == front + [o];
      ExpandedInTurn(a, front, fstab, current);
      NextExpanded(a + front, o, fstab, current);
      NextExpanded(front, o, fstab, current);
      Joined(NonEmpty(TokensOf(Expanded(a, fstab, current))), NonEmpty(TokensOf(Expanded(front, fstab, current))),
             NonEmpty(TokensOf(Meta(o, fstab, current))));
    }
  }

  lemma Joined(a: seq<string>, b: seq<string>, c: seq<string>)
    ensures (a + b) + c == a + (b + c)
  {
  }

  lemma NextExpanded(list: seq<string>, o: string, fstab: Ptr, current: string)
    ensures NonEmpty(TokensOf(Expanded(list + [o], fstab, current))) ==
      NonEmpty(TokensOf(Expanded(list, fstab, current))) + NonEmpty(TokensOf(Meta(o, fstab, current)))
  {
    hide NonEmpty, Tokens, Meta, Expanded;
    ExpandedNext(list, o, fstab, current);
  }

  /** "-o fstab" with "noatime" in the table and "sync" in force is "noatime"; "-o current" is "sync". */
  lemma FstabAndCurrent()
    ensures NonEmpty(TokensOf(Expanded(["fstab"], Text("noatime"), "sync"))) == ["noatime"]
    ensures NonEmpty(TokensOf(Expanded(["current"], Text("noatime"), "sync"))) == ["sync"]
    ensures NonEmpty(TokensOf(Expanded(["current", "ro", "fstab"], Text("noatime"), "sync")))
         == ["sync", "ro", "noatime"]
  {
    hide Expanded, NonEmpty, TokensOf;
    assert CommaFree("noatime") && CommaFree("sync") && CommaFree("ro");
    OneEach("noatime", "sync", "ro");
  }

  /** One option in the table, one in force, and one that is neither word. */
  lemma OneEach(f: string, c: string, o: string)
    requires CommaFree(f) && f != "" && CommaFree(c) && c != "" && CommaFree(o) && o !in ["", "fstab", "current"]
    ensures NonEmpty(TokensOf(Expanded(["fstab"], Text(f), c))) == [f]
    ensures NonEmpty(TokensOf(Expanded(["current"], Text(f), c))) == [c]
    ensures NonEmpty(TokensOf(Expanded(["current", o, "fstab"], Text(f), c))) == [c, o, f]
  {
    hide Expanded, NonEmpty, Tokens;
    MetaOptions(Text(f), c, o);
    SplitOne(f);
    SplitOne(c);
    NonEmptyOne(f);
    NonEmptyOne(c);
    ExpandedInTurn(["current", o], ["fstab"], Text(f), c);
    ExpandedInTurn(["current"], [o], Text(f), c);
    assert ["current"] + [o] == ["current", o] && ["current", o] + ["fstab"] == ["current", o, "fstab"];
    assert [c] + [o] + [f] == [c, o, f];
  }

  // ---------------------------------------------------------------- negations

  /** A negation is "no" and a name. */
  lemma Negations(o: string)
    ensures StartsWithNo(o) <==> exists u: string :: o == "no" + u
    ensures StartsWithNo("no") && StartsWithNo("nodev") && !StartsWithNo("n") && !StartsWithNo("onodev")
  {
    if StartsWithNo(o) {
      assert o == "no" + o[2..];
    }
  }

  /** The later one of an option and its negation stays; other options stay as they are. */
  lemma Contradictions()
    ensures Rewritten(["dev", "nodev"]) == ["nodev"] && Rewritten(["nodev", "dev"]) == ["dev"]
    ensures Rewritten(["dev", "ro", "nodev"]) == ["ro", "nodev"] && Rewritten(["ro", "rw"]) == ["ro", "rw"]
  {
    hide Rewritten, Rewrite;
    NothingDone();
    Pair("dev", "nodev");
    Pair("nodev", "dev");
    Pair("dev", "ro");
    Pair("ro", "rw");
    RewrittenNext(["dev", "ro"], "nodev");
    assert ["dev", "ro"] + ["nodev"] == ["dev", "ro", "nodev"];
    Third();
  }

  lemma Pair(a: string, b: string)
    requires a in ["dev", "nodev", "ro"] && b in ["dev", "nodev", "ro", "rw"] && a != b
    ensures Rewritten([a, b]) == if a == "no" + b || b == "no" + a then [b] else [a, b]
  {
    hide Rewritten;
    NothingDone();
    RewrittenNext([], a);
    RewrittenNext([a], b);
    assert [] + [a] == [a] && [a] + [b] == [a, b];
    assert Without([], "no" + a) == [] && (|a| > 2 ==> Without([], a[2..]) == []);
    WithoutOne(a, "no" + b);
    assert ("no" + b)[2..] == b && ("no" + a)[2..] == a;
    if StartsWithNo(b) {
      assert b[2..] == "dev";
      WithoutOne(a, "dev");
      assert Without([], "dev") == [];
    }
    assert Without([], b) == [];
  }

  lemma Third()
    ensures Rewrite(["dev", "ro"], "nodev") == ["ro", "nodev"]
  {
    assert "nodev"[2..] == "dev" && "no" + "nodev" == "nonodev";
    assert Without([], "nonodev") == [] && Without([], "dev") == [];
    assert ["dev"] + ["ro"] == ["dev", "ro"] && ["ro"] + ["nodev"] == ["ro", "nodev"];
    WithoutAppend(["dev"], ["ro"], "nonodev");
    WithoutOne("dev", "nonodev");
    WithoutOne("ro", "nonodev");
    WithoutAppend(["dev"], ["ro"], "dev");
    WithoutOne("dev", "dev");
    WithoutOne("ro", "dev");
    assert [] + ["ro"] == ["ro"];
  }

  // ---------------------------------------------------------------- names

  /** Names match in either case, and whatever follows them. */
  lemma Names()
    ensures Matches("async", "async") && Matches("async", "ASync") && Matches("ASYNC", "async")
    ensures Matches("zone", "ZONE") && Matches("async", "asynchronous") && Matches("a9", "A9")
    ensures !Matches("async", "asyn") && !Matches("async", "sync") && !Matches("a@", "a`") && !Matches("a[", "a{")
  {
    assert Lower('S') == Lower('s') == 's' && Lower('A') == 'a' && Lower('Z') == 'z';
    assert Lower('@') == '@' && Lower('[') == '[';
    assert Lower("async"[0]) != Lower("sync"[0]);
    assert Lower("a@"[1]) != Lower("a`"[1]) && Lower("a["[1]) != Lower("a{"[1]);
  }

  /** What is looked up for an option is its name, with "=" when something is assigned. */
  lemma PlainBodies()
    ensures Body("ro") == "ro" && Body("nodev") == "dev"
  {
    hide Cut;
    NoEquals("ro");
    assert "nodev"[2..] == "dev";
    NoEquals("dev");
  }

  lemma AssignedBodies(q: string)
    ensures Body("quota=" + q) == "quota=" && Body("noquota=" + q) == "quota="
  {
    hide Cut;
    var s, t := "quota=" + q, "noquota=" + q;
    assert s[0] == 'q' && t[0] == 'n' && t[1] == 'o' && t[2..] == s;
    CutAt("quota", q);
    assert s == "quota" + "=" + q;
  }

  lemma {:induction false} CutAt(name: string, value: string)
    requires forall i :: 0 <= i < |name| ==> name[i] != '='
    ensures Cut(name + "=" + value) == name + "="
  {
    var s := name + "=" + value;
    if name != "" {
      CutAt(name[1..], value);
      assert s[1..] == name[1..] + "=" + value;
    }
  }

  /** "ro" sets a flag and "noro" clears it; for "dev", which is stored as its negation, it is the other way
      round.  A flag may stand in the second word. */
  lemma Effects(table: seq<MntOpt>, f: Flags)
    requires table == [MntOpt("ro", false, 1, false), MntOpt("dev", true, 2, false), MntOpt("soft", false, 1, true)]
    ensures Fold(table, Flags(0, 0), ["ro", "nodev", "soft"]) == Flags(3, 1)
    ensures Fold(table, Flags(7, 5), ["noro", "dev", "nosoft"]) == Flags(4, 4)
    ensures Effect(table, f, "quiet") == f && !Recognised(table, "quiet") && Recognised(table, "RO=1")
  {
    hide Fold, Effect, Body;
    var a, b := ["ro", "nodev", "soft"], ["noro", "dev", "nosoft"];
    SixBodies();
    SixEffects(table);
    assert [] + ["ro"] == ["ro"] && ["ro"] + ["nodev"] == ["ro", "nodev"] && ["ro", "nodev"] + ["soft"] == a;
    assert [] + ["noro"] == ["noro"] && ["noro"] + ["dev"] == ["noro", "dev"] && ["noro", "dev"] + ["nosoft"] == b;
    NothingFolded(table, Flags(0, 0));
    NothingFolded(table, Flags(7, 5));
    FoldNext(table, Flags(0, 0), [], "ro");
    FoldNext(table, Flags(0, 0), ["ro"], "nodev");
    FoldNext(table, Flags(0, 0), ["ro", "nodev"], "soft");
    FoldNext(table, Flags(7, 5), [], "noro");
    FoldNext(table, Flags(7, 5), ["noro"], "dev");
    FoldNext(table, Flags(7, 5), ["noro", "dev"], "nosoft");
    Unknown(table, f);
  }

  lemma SixBodies()
    ensures Body("ro") == Body("noro") == "ro" && Body("dev") == Body("nodev") == "dev"
    ensures Body("soft") == Body("nosoft") == "soft" && Body("quiet") == "quiet" && Body("RO=1") == "RO="
  {
    hide Body;
    BodyOf("ro");
    BodyOf("dev");
    BodyOf("soft");
    assert "no" + "ro" == "noro" && "no" + "dev" == "nodev" && "no" + "soft" == "nosoft";
    OtherBodies();
  }

  lemma BodyOf(o: string)
    requires !StartsWithNo(o) && forall i :: 0 <= i < |o| ==> o[i] != '='
    ensures Body(o) == Body("no" + o) == o
  {
    assert ("no" + o)[2..] == o;
    NoEquals(o);
  }

  lemma OtherBodies()
    ensures Body("quiet") == "quiet" && Body("RO=1") == "RO="
  {
    NoEquals("quiet");
    CutAt("RO", "1");
    assert "RO=1" == "RO" + "=" + "1";
  }

  lemma SixEffects(table: seq<MntOpt>)
    requires table == [MntOpt("ro", false, 1, false), MntOpt("dev", true, 2, false), MntOpt("soft", false, 1, true)]
    ensures Effect(table, Flags(0, 0), "ro") == Flags(1, 0) && Effect(table, Flags(1, 0), "nodev") == Flags(3, 0)
    ensures Effect(table, Flags(3, 0), "soft") == Flags(3, 1) && Effect(table, Flags(7, 5), "noro") == Flags(6, 5)
    ensures Effect(table, Flags(6, 5), "dev") == Flags(4, 5) && Effect(table, Flags(4, 5), "nosoft") == Flags(4, 4)
  {
    hide Body;
    SixBodies();
    FirstLetters();
    assert Entry(table, "ro", 0) == 0;
    assert Entry(table, "dev", 1) == 1 && Entry(table, "dev", 0) == 1;
    assert Entry(table, "soft", 2) == 2 && Entry(table, "soft", 1) == 2 && Entry(table, "soft", 0) == 2;
  }

  lemma FirstLetters()
    ensures !Matches("ro", "dev") && !Matches("ro", "soft") && !Matches("dev", "soft")
    ensures !Matches("ro", "quiet") && !Matches("dev", "quiet") && !Matches("soft", "quiet")
  {
    assert Lower("ro"[0]) == 'r' && Lower("dev"[0]) == 'd' && Lower("soft"[0]) == 's' && Lower("quiet"[0]) == 'q';
  }

  lemma Unknown(table: seq<MntOpt>, f: Flags)
    requires table == [MntOpt("ro", false, 1, false), MntOpt("dev", true, 2, false), MntOpt("soft", false, 1, true)]
    ensures Effect(table, f, "quiet") == f && !Recognised(table, "quiet") && Recognised(table, "RO=1")
  {
    hide Body;
    SixBodies();
    FirstLetters();
    assert Entry(table, "quiet", 3) == 3 && Entry(table, "quiet", 2) == 3 && Entry(table, "quiet", 1) == 3;
    assert Matches("ro", "RO=");
  }

  // ---------------------------------------------------------------- arguments

  /** An option with a dash is an argument of its own, and so is what is assigned to it; "rw" is none. */
  lemma SingleArguments()
    ensures Argument("ro") == ["-o", "ro"] && Argument("rw") == [] && Argument("-s") == ["-s"]
    ensures Argument("-s=32") == ["-s", "32"] && Argument("-s=a=b") == ["-s", "a=b"]
    ensures Arguments(["ro", "rw", "-s=32"]) == ["-o", "ro", "-s", "32"]
  {
    assert EqualsAt("-s", 1) == 2 && EqualsAt("-s=32", 1) == 2 && EqualsAt("-s=a=b", 1) == 2;
    assert "-s=32"[..2] == "-s" && "-s=32"[3..] == "32" && "-s=a=b"[..2] == "-s" && "-s=a=b"[3..] == "a=b";
    hide Argument, Arguments;
    NoArguments();
    ArgumentsNext([], "ro");
    ArgumentsNext(["ro"], "rw");
    ArgumentsNext(["ro", "rw"], "-s=32");
    assert [] + ["ro"] == ["ro"] && ["ro"] + ["rw"] == ["ro", "rw"];
    assert ["ro", "rw"] + ["-s=32"] == ["ro", "rw", "-s=32"];
  }

  /** -o may be joined to its options or stand before them; anything else but a closing "--" is a usage error. */
  lemma ReadArguments()
    ensures Read(["-o", "ro,dev", "-osuid"]) == Some(["ro", "dev", "suid"])
    ensures Read(["-o"]) == None && Read(["ro"]) == None && Read(["-s"]) == None && Read(["--"]) == Some([])
    ensures Read(["--", "-o"]) == None
  {
    hide Tokens, NonEmpty;
    NothingRead();
    var a := ["-o", "ro,dev", "-osuid"];
    assert a[2..] == ["-osuid"] && ["-osuid"][1..] == [] && "-osuid"[..2] == "-o" && "-osuid"[2..] == "suid";
    assert |"-s"| == 2 && |"ro"| == 2 && |"--"| == 2;
    SplitOne("suid");
    NonEmptyOne("suid");
    TwoTokens();
    assert ["suid"] + [] == ["suid"] && ["ro", "dev"] + ["suid"] == ["ro", "dev", "suid"];
    assert Read(["-osuid"]) == Behind("suid", Read([])) == Some(["suid"]);
    assert Read(a) == Behind("ro,dev", Read(["-osuid"]));
  }

  lemma TwoTokens()
    ensures NonEmpty(Split("ro,dev")) == ["ro", "dev"]
  {
    hide Tokens;
    SplitOne("ro");
    SplitOne("dev");
    TokensConcat("ro", "dev", 0);
    assert "ro,dev" == "ro" + "," + "dev";
    NonEmptyOne("dev");
    NonEmptyAppend(["ro"], ["dev"]);
    NonEmptyOne("ro");
  }
}
