/** test(1) from the outside: what it answers to argument lists, by the spellings of its operators. */
module TestExamples {
  import opened Common
  import opened TestExpr

  /** The entry at place `i` of the table is spelled, numbered and used like this. */
  predicate Entry(i: nat, text: string, num: Num, kind: Kind) {
    i < |Ops()| && Ops()[i] == Op(text, num, kind)
  }

  lemma StringEntries()
    ensures Entry(14, "-z", STREZ, UNOP) && Entry(15, "-n", STRNZ, UNOP)
    ensures Entry(21, "=", STREQ, BINOP) && Entry(22, "!=", STRNE, BINOP)
    ensures Entry(23, "<", STRLT, BINOP) && Entry(24, ">", STRGT, BINOP)
  {
  }

  lemma NumberEntries()
    ensures Entry(25, "-eq", INTEQ, BINOP) && Entry(26, "-ne", INTNE, BINOP) && Entry(27, "-ge", INTGE, BINOP)
    ensures Entry(28, "-gt", INTGT, BINOP) && Entry(29, "-le", INTLE, BINOP) && Entry(30, "-lt", INTLT, BINOP)
  {
  }

  lemma AgeEntries()
    ensures Entry(31, "-nt", FILNT, BINOP) && Entry(32, "-ot", FILOT, BINOP) && Entry(33, "-ef", FILEQ, BINOP)
  {
  }

  lemma FileEntries()
    ensures Entry(0, "-r", FILRD, UNOP) && Entry(1, "-w", FILWR, UNOP) && Entry(2, "-x", FILEX, UNOP)
    ensures Entry(3, "-e", FILEXIST, UNOP) && Entry(4, "-f", FILREG, UNOP) && Entry(5, "-d", FILDIR, UNOP)
  {
  }

  lemma MoreFileEntries()
    ensures Entry(6, "-c", FILCDEV, UNOP) && Entry(7, "-b", FILBDEV, UNOP) && Entry(8, "-p", FILFIFO, UNOP)
    ensures Entry(9, "-u", FILSUID, UNOP)
  {
  }

  lemma ModeEntries()
    ensures Entry(10, "-g", FILSGID, UNOP) && Entry(11, "-k", FILSTCK, UNOP)
    ensures Entry(12, "-s", FILGZ, UNOP) && Entry(13, "-t", FILTT, UNOP)
  {
  }

  lemma LastFileEntries()
    ensures Entry(16, "-h", FILSYM, UNOP) && Entry(17, "-O", FILUID, UNOP) && Entry(18, "-G", FILGID, UNOP)
    ensures Entry(19, "-L", FILSYM, UNOP) && Entry(20, "-S", FILSOCK, UNOP)
  {
  }

  lemma EntryIsIn(i: nat, text: string, num: Num, kind: Kind)
    requires Entry(i, text, num, kind)
    ensures Op(text, num, kind) in Ops() && Lookup(text) == Some(Op(text, num, kind))
  {
    hide Ops, Lookup;
    LookupFinds(i);
  }

  predicate Ordinary(s: string) {
    Lookup(s).None?
  }

  // ---------------------------------------------------------------- one primary

  function Single(p: Primary): Expr {
    One(AndOne(Prim(p)))
  }

  /** An operator between two operands. */
  lemma BinaryAnswer(o: Oracle, spare: bool, i: nat, text: string, num: Num, s: string, t: string)
    requires Entry(i, text, num, BINOP) && Ordinary(s) && Ordinary(t)
    ensures Main(o, spare, [s, text, t]) == FromOracle(TestBinary(o, num, s, t))
  {
    hide Ops, Lookup, Main, TestBinary, FromOracle;
    EntryIsIn(i, text, num, BINOP);
    var p := Binary(s, Op(text, num, BINOP), t);
    assert PrintP(p) == [s, text, t] && MeaningP(o, p) == TestBinary(o, num, s, t) && OrdinaryP(p);
    SingleAnswer(o, spare, p);
  }

  /** An operator in front of an operand. */
  lemma UnaryAnswer(o: Oracle, spare: bool, i: nat, text: string, num: Num, s: string)
    requires Entry(i, text, num, UNOP) && Ordinary(s)
    ensures Main(o, spare, [text, s]) == FromOracle(TestUnary(o, num, s))
  {
    hide Ops, Lookup, Main, TestUnary, FromOracle;
    EntryIsIn(i, text, num, UNOP);
    var p := Unary(Op(text, num, UNOP), s);
    assert PrintP(p) == [text, s] && MeaningP(o, p) == TestUnary(o, num, s) && OrdinaryP(p);
    SingleAnswer(o, spare, p);
  }

  lemma SingleAnswer(o: Oracle, spare: bool, p: Primary)
    requires OrdinaryP(p)
    ensures Main(o, spare, PrintP(p)) == FromOracle(MeaningP(o, p))
  {
    hide Ops, Lookup, Main, TestUnary, TestBinary, FromOracle;
    var e := Single(p);
    var n := Prim(p);
    assert PrintO(e) == PrintA(AndOne(n)) == PrintN(n) == PrintP(p);
    assert MeaningO(o, e) == MeaningA(o, AndOne(n)) == MeaningN(o, n) == MeaningP(o, p);
    assert OrdinaryN(n) && OrdinaryA(AndOne(n)) && OrdinaryO(e);
    OrdinaryReadsBack(o, spare, e);
  }

  /** `s` comes before `t`: they agree up to a place where `s` ends or has the smaller character. */
  ghost predicate Before(s: string, t: string) {
    exists i :: 0 <= i <= |s| && i < |t| && s[..i] == t[..i] && (i == |s| || s[i] < t[i])
  }

  lemma {:induction false} LessIsBefore(s: string, t: string)
    ensures Less(s, t) <==> Before(s, t)
    decreases |s|
  {
    if s != [] && t != [] {
      LessIsBefore(s[1..], t[1..]);
      if s[0] == t[0] {
        if Before(s[1..], t[1..]) {
          var i :| 0 <= i <= |s| - 1 && i < |t| - 1 && s[1..][..i] == t[1..][..i]
            && (i == |s| - 1 || s[1..][i] < t[1..][i]);
          assert s[..i + 1] == [s[0]] + s[1..][..i] && t[..i + 1] == [t[0]] + t[1..][..i];
          assert Before(s, t);
        }
        if Before(s, t) {
          var i :| 0 <= i <= |s| && i < |t| && s[..i] == t[..i] && (i == |s| || s[i] < t[i]);
          assert s[1..][..i - 1] == s[..i][1..] && t[1..][..i - 1] == t[..i][1..];
          assert Before(s[1..], t[1..]);
        }
      } else {
        if s[0] < t[0] {
          assert s[..0] == t[..0];
          assert Before(s, t);
        }
        if Before(s, t) {
          var i :| 0 <= i <= |s| && i < |t| && s[..i] == t[..i] && (i == |s| || s[i] < t[i]);
          assert i > 0 ==> s[..i][0] == t[..i][0];
        }
      }
    } else if t != [] {
      assert s[..0] == t[..0];
    }
  }

  /** Strings are compared by what they are and by their order. */
  lemma StringsCompared(o: Oracle, spare: bool, s: string, t: string)
    requires Ordinary(s) && Ordinary(t)
    ensures Main(o, spare, [s, "=", t]) == Value(s == t)
    ensures Main(o, spare, [s, "!=", t]) == Value(s != t)
    ensures Main(o, spare, [s, "<", t]) == Value(Before(s, t))
    ensures Main(o, spare, [s, ">", t]) == Value(Before(t, s))
  {
    hide Ops, Lookup, Main, Entry, Less, Before;
    StringEntries();
    BinaryAnswer(o, spare, 21, "=", STREQ, s, t);
    BinaryAnswer(o, spare, 22, "!=", STRNE, s, t);
    BinaryAnswer(o, spare, 23, "<", STRLT, s, t);
    BinaryAnswer(o, spare, 24, ">", STRGT, s, t);
    LessIsBefore(s, t);
    LessIsBefore(t, s);
  }

  /** A string alone and its two tests. */
  lemma StringsTested(o: Oracle, spare: bool, s: string)
    requires Ordinary(s)
    ensures Main(o, spare, [s]) == Value(s != "")
    ensures Main(o, spare, ["-n", s]) == Value(s != "")
    ensures Main(o, spare, ["-z", s]) == Value(s == "")
  {
    hide Ops, Lookup, Main, Entry;
    StringEntries();
    UnaryAnswer(o, spare, 14, "-z", STREZ, s);
    UnaryAnswer(o, spare, 15, "-n", STRNZ, s);
    assert PrintP(Str(s)) == [s] && OrdinaryP(Str(s)) && MeaningP(o, Str(s)) == Some(|s| > 0);
    SingleAnswer(o, spare, Str(s));
  }

  /** What is left to the system is asked by the right name. */
  lemma NumbersCompared(o: Oracle, spare: bool, s: string, t: string)
    requires Ordinary(s) && Ordinary(t)
    ensures Main(o, spare, [s, "-eq", t]) == FromOracle(o.compare(INTEQ, s, t))
    ensures Main(o, spare, [s, "-ne", t]) == FromOracle(o.compare(INTNE, s, t))
    ensures Main(o, spare, [s, "-ge", t]) == FromOracle(o.compare(INTGE, s, t))
    ensures Main(o, spare, [s, "-gt", t]) == FromOracle(o.compare(INTGT, s, t))
    ensures Main(o, spare, [s, "-le", t]) == FromOracle(o.compare(INTLE, s, t))
    ensures Main(o, spare, [s, "-lt", t]) == FromOracle(o.compare(INTLT, s, t))
  {
    hide Ops, Lookup, Main, Entry, FromOracle;
    NumberEntries();
    BinaryAnswer(o, spare, 25, "-eq", INTEQ, s, t);
    BinaryAnswer(o, spare, 26, "-ne", INTNE, s, t);
    BinaryAnswer(o, spare, 27, "-ge", INTGE, s, t);
    BinaryAnswer(o, spare, 28, "-gt", INTGT, s, t);
    BinaryAnswer(o, spare, 29, "-le", INTLE, s, t);
    BinaryAnswer(o, spare, 30, "-lt", INTLT, s, t);
  }

  lemma FilesCompared(o: Oracle, spare: bool, s: string, t: string)
    requires Ordinary(s) && Ordinary(t)
    ensures Main(o, spare, [s, "-nt", t]) == FromOracle(o.compare(FILNT, s, t))
    ensures Main(o, spare, [s, "-ot", t]) == FromOracle(o.compare(FILOT, s, t))
    ensures Main(o, spare, [s, "-ef", t]) == FromOracle(o.compare(FILEQ, s, t))
  {
    hide Ops, Lookup, Main, Entry, FromOracle;
    AgeEntries();
    BinaryAnswer(o, spare, 31, "-nt", FILNT, s, t);
    BinaryAnswer(o, spare, 32, "-ot", FILOT, s, t);
    BinaryAnswer(o, spare, 33, "-ef", FILEQ, s, t);
  }

  lemma FilesTested(o: Oracle, spare: bool, s: string)
    requires Ordinary(s)
    ensures Main(o, spare, ["-r", s]) == FromOracle(o.test(FILRD, s))
    ensures Main(o, spare, ["-w", s]) == FromOracle(o.test(FILWR, s))
    ensures Main(o, spare, ["-x", s]) == FromOracle(o.test(FILEX, s))
    ensures Main(o, spare, ["-e", s]) == FromOracle(o.test(FILEXIST, s))
    ensures Main(o, spare, ["-f", s]) == FromOracle(o.test(FILREG, s))
    ensures Main(o, spare, ["-d", s]) == FromOracle(o.test(FILDIR, s))
  {
    hide Ops, Lookup, Main, Entry, FromOracle;
    FileEntries();
    UnaryAnswer(o, spare, 0, "-r", FILRD, s);
    UnaryAnswer(o, spare, 1, "-w", FILWR, s);
    UnaryAnswer(o, spare, 2, "-x", FILEX, s);
    UnaryAnswer(o, spare, 3, "-e", FILEXIST, s);
    UnaryAnswer(o, spare, 4, "-f", FILREG, s);
    UnaryAnswer(o, spare, 5, "-d", FILDIR, s);
  }

  lemma MoreFilesTested(o: Oracle, spare: bool, s: string)
    requires Ordinary(s)
    ensures Main(o, spare, ["-c", s]) == FromOracle(o.test(FILCDEV, s))
    ensures Main(o, spare, ["-b", s]) == FromOracle(o.test(FILBDEV, s))
    ensures Main(o, spare, ["-p", s]) == FromOracle(o.test(FILFIFO, s))
    ensures Main(o, spare, ["-u", s]) == FromOracle(o.test(FILSUID, s))
    ensures Main(o, spare, ["-g", s]) == FromOracle(o.test(FILSGID, s))
    ensures Main(o, spare, ["-k", s]) == FromOracle(o.test(FILSTCK, s))
    ensures Main(o, spare, ["-s", s]) == FromOracle(o.test(FILGZ, s))
    ensures Main(o, spare, ["-t", s]) == FromOracle(o.test(FILTT, s))
  {
    hide Ops, Lookup, Main, Entry, FromOracle;
    MoreFileEntries();
    ModeEntries();
    UnaryAnswer(o, spare, 6, "-c", FILCDEV, s);
    UnaryAnswer(o, spare, 7, "-b", FILBDEV, s);
    UnaryAnswer(o, spare, 8, "-p", FILFIFO, s);
    UnaryAnswer(o, spare, 9, "-u", FILSUID, s);
    UnaryAnswer(o, spare, 10, "-g", FILSGID, s);
    UnaryAnswer(o, spare, 11, "-k", FILSTCK, s);
    UnaryAnswer(o, spare, 12, "-s", FILGZ, s);
    UnaryAnswer(o, spare, 13, "-t", FILTT, s);
  }

  lemma LastFilesTested(o: Oracle, spare: bool, s: string)
    requires Ordinary(s)
    ensures Main(o, spare, ["-h", s]) == Main(o, spare, ["-L", s]) == FromOracle(o.test(FILSYM, s))
    ensures Main(o, spare, ["-O", s]) == FromOracle(o.test(FILUID, s))
    ensures Main(o, spare, ["-G", s]) == FromOracle(o.test(FILGID, s))
    ensures Main(o, spare, ["-S", s]) == FromOracle(o.test(FILSOCK, s))
  {
    hide Ops, Lookup, Main, Entry, FromOracle;
    LastFileEntries();
    UnaryAnswer(o, spare, 16, "-h", FILSYM, s);
    UnaryAnswer(o, spare, 17, "-O", FILUID, s);
    UnaryAnswer(o, spare, 18, "-G", FILGID, s);
    UnaryAnswer(o, spare, 19, "-L", FILSYM, s);
    UnaryAnswer(o, spare, 20, "-S", FILSOCK, s);
  }

  // ---------------------------------------------------------------- operators that are operands

  lemma ReadableAnswer(o: Oracle, spare: bool, p: Primary)
    requires ReadableP(p, None)
    ensures Main(o, spare, PrintP(p)) == FromOracle(MeaningP(o, p))
  {
    hide Ops, Lookup, Main, TestUnary, TestBinary, FromOracle, ReadableP;
    var e, n := Single(p), Prim(p);
    assert PrintO(e) == PrintA(AndOne(n)) == PrintN(n) == PrintP(p);
    assert MeaningO(o, e) == MeaningA(o, AndOne(n)) == MeaningN(o, n) == MeaningP(o, p);
    assert ReadableN(n, None) && ReadableA(AndOne(n), None) && ReadableO(e, None);
    ReadableNeverOverruns(o, spare, e);
  }

  lemma FileEntryIs()
    ensures Op("-f", FILREG, UNOP) in Ops() && Lookup("-f") == Some(Op("-f", FILREG, UNOP))
    ensures Op("=", STREQ, BINOP) in Ops() && Lookup("=") == Some(Op("=", STREQ, BINOP))
    ensures Lookup("(") == Some(Op("(", LPAREN, PAREN)) && Lookup("!") == Some(Op("!", UNOT, BUNOP))
  {
    hide Ops, Lookup, Entry;
    StringEntries();
    FileEntries();
    EntryIsIn(4, "-f", FILREG, UNOP);
    EntryIsIn(21, "=", STREQ, BINOP);
    LookupFacts();
    Spellings();
    assert NotOp() == Op("!", UNOT, BUNOP) && OpenOp() == Op("(", LPAREN, PAREN);
  }

  /** A unary operator is an operand when it stands alone or before a binary operator and something other than
      a closing parenthesis; an open parenthesis is one when it stands alone. */
  lemma OperatorsAsOperands(o: Oracle, spare: bool)
    ensures Main(o, spare, ["-f"]) == Value(true)
    ensures Main(o, spare, ["-f", "=", "-f"]) == Value(true)
    ensures Main(o, spare, ["-f", "="]) == FromOracle(o.test(FILREG, "="))
    ensures Main(o, spare, ["("]) == Value(true)
    ensures Main(o, spare, ["(", ")"]) == Value(false)
    ensures Main(o, spare, ["(", "-f", "=", ")"]) == FromOracle(o.test(FILREG, "="))
  {
    hide Ops, Lookup, Main;
    FileEntryIs();
    Spellings();
    var f, eq := Op("-f", FILREG, UNOP), Op("=", STREQ, BINOP);
    ReadableAnswer(o, spare, Str("-f"));
    ReadableAnswer(o, spare, Binary("-f", eq, "-f"));
    ReadableAnswer(o, spare, Unary(f, "="));
    ReadableAnswer(o, spare, Str("("));
    ReadableAnswer(o, spare, Nothing);
    Enclosed(o, spare, Unary(f, "="), "-f", "=");
  }

  /** A primary of two tokens in parentheses. */
  lemma Enclosed(o: Oracle, spare: bool, p: Primary, a: string, b: string)
    requires ReadableP(p, Some(")")) && PrintP(p) == [a, b] && a != ")"
    ensures Main(o, spare, ["(", a, b, ")"]) == FromOracle(MeaningP(o, p))
  {
    hide Ops, Lookup, Main, TestUnary, TestBinary, FromOracle;
    Spellings();
    var e, n := Single(p), Prim(p);
    assert PrintO(e) == PrintA(AndOne(n)) == PrintN(n) == [a, b];
    assert MeaningO(o, e) == MeaningA(o, AndOne(n)) == MeaningN(o, n) == MeaningP(o, p);
    assert ReadableN(n, Some(")")) && ReadableA(AndOne(n), Some(")")) && ReadableO(e, Some(")"));
    hide PrintO, ReadableO, MeaningO, ReadableP;
    assert PrintO(e)[0] == a;
    GroupReadable(e);
    GroupIs(o, e);
    ReadableAnswer(o, spare, Group(e));
    assert ["("] + [a, b] + [")"] == ["(", a, b, ")"];
  }

  lemma GroupReadable(e: Expr)
    requires ReadableO(e, Some(")")) && PrintO(e)[0] != ")"
    ensures ReadableP(Group(e), None)
    ensures forall o: Oracle :: MeaningP(o, Group(e)) == MeaningO(o, e)
    ensures PrintP(Group(e)) == ["("] + PrintO(e) + [")"]
  {
    hide Ops, Lookup, ReadableO, PrintO, MeaningO;
    Spellings();
  }

  // ---------------------------------------------------------------- errors

  /** What the parse of a first operand gives, the whole parse gives, unless a connective follows. */
  lemma FirstOperand(o: Oracle, spare: bool, argv: seq<string>)
    requires argv != [] && argv[0] != "!"
    ensures var (v, p) := ParseP(o, spare, argv, 0);
      && (!v.Value? ==> ParseO(o, spare, argv, 0) == (v, p))
      && (v.Value? && p + 1 < |argv| && argv[p + 1] != "-a" && argv[p + 1] != "-o" ==>
            ParseO(o, spare, argv, 0) == (v, p))
  {
    hide ParseO, ParseA, ParseN, ParseP;
    Spellings();
    NotStep(o, spare, argv, 0);
    AndStep(o, spare, argv, 0);
    OrStep(o, spare, argv, 0);
  }

  lemma OrdinaryFirst(argv: seq<string>)
    requires argv != [] && Ordinary(argv[0])
    ensures argv[0] != "!" && argv[0] != "("
    ensures LexAt(argv, 0, 0) == Lexed(OPERAND, None)
  {
    hide Ops, Lookup;
    FileEntryIs();
  }

  /** The right operand is missing. */
  lemma OperandMissing(o: Oracle, spare: bool, s: string)
    requires Ordinary(s)
    ensures Main(o, spare, [s, "="]) == Exit
  {
    hide Ops, Lookup, ParseO, ParseGroup, TestBinary;
    var argv := [s, "="];
    FileEntryIs();
    OrdinaryFirst(argv);
    FirstOperand(o, spare, argv);
    assert LexAt(argv, 0, 1) == Lexed(STREQ, Some(Op("=", STREQ, BINOP)));
    assert ParseFlat(o, argv, 0) == (Exit, 2);
    assert ParseP(o, spare, argv, 0) == (Exit, 2);
  }

  /** Two strings without an operator. */
  lemma OperatorMissing(o: Oracle, spare: bool, s: string, t: string)
    requires Ordinary(s) && Ordinary(t)
    ensures Main(o, spare, [s, t]) == Exit
  {
    hide Ops, Lookup, ParseO, ParseGroup, TestBinary;
    var argv := [s, t];
    OrdinaryFirst(argv);
    OrdinaryFirst([t]);
    NoConnective(t);
    FirstOperand(o, spare, argv);
    assert LexAt(argv, 0, 1) == Lexed(OPERAND, None);
    assert ParseFlat(o, argv, 0) == (Value(|s| > 0), 0);
    assert ParseP(o, spare, argv, 0) == (Value(|s| > 0), 0);
  }

  lemma NoConnective(t: string)
    requires Ordinary(t)
    ensures t != "-a" && t != "-o" && t != ")"
  {
    hide Ops, Lookup;
    LookupFacts();
    Spellings();
  }

  /** A parenthesis that is not closed behind a complete expression. */
  lemma ParenthesisMissing(o: Oracle, spare: bool, s: string)
    requires Ordinary(s)
    ensures Main(o, spare, ["(", s]) == Exit
  {
    hide Ops, Lookup, ParseO, ParseA, ParseN, ParseP, LexAt, TestBinary;
    var argv := ["(", s];
    Spellings();
    NoConnective(s);
    StringAtEnd(o, spare, argv);
    GroupStep(o, spare, argv, 0);
    FirstOperand(o, spare, argv);
  }

  lemma StringAtEnd(o: Oracle, spare: bool, argv: seq<string>)
    requires |argv| == 2 && Ordinary(argv[1])
    ensures ParseO(o, spare, argv, 1) == (Value(argv[1] != ""), 1)
  {
    hide Ops, Lookup, ParseO, ParseA, ParseN, ParseGroup;
    OrdinaryFirst([argv[1]]);
    Spellings();
    assert ParseFlat(o, argv, 1) == (Value(|argv[1]| > 0), 1);
    assert ParseP(o, spare, argv, 1) == (Value(|argv[1]| > 0), 1);
    NotStep(o, spare, argv, 1);
    AndStep(o, spare, argv, 1);
    OrStep(o, spare, argv, 1);
  }

  // ---------------------------------------------------------------- connectives

  lemma Spellings()
    ensures NotOp().text == "!" && AndOp().text == "-a" && OrOp().text == "-o"
    ensures OpenOp().text == "(" && CloseOp().text == ")"
  {
  }

  /** "!" negates; -a binds tighter than -o, unless parentheses say otherwise. */
  lemma Connectives(o: Oracle, spare: bool, a: string, b: string, c: string)
    requires Ordinary(a) && Ordinary(b) && Ordinary(c)
    ensures Main(o, spare, ["!", a]) == Value(a == "")
    ensures Main(o, spare, [a, "-o", b]) == Value(a != "" || b != "")
    ensures Main(o, spare, [a, "-a", b]) == Value(a != "" && b != "")
    ensures Main(o, spare, [a, "-o", b, "-a", c]) == Value(a != "" || (b != "" && c != ""))
    ensures Main(o, spare, [a, "-a", b, "-o", c]) == Value((a != "" && b != "") || c != "")
    ensures Main(o, spare, ["!", a, "-a", b]) == Value(a == "" && b != "")
    ensures Main(o, spare, ["(", a, "-o", b, ")", "-a", c]) == Value((a != "" || b != "") && c != "")
  {
    hide Main, Lookup, Ops;
    Negated1(o, spare, a, b);
    Or2(o, spare, a, b, c);
    And2(o, spare, a, b, c);
    Grouped(o, spare, a, b, c);
  }

  function Plain(s: string): NotExpr {
    Prim(Str(s))
  }

  lemma PlainIs(o: Oracle, s: string)
    requires Ordinary(s)
    ensures OrdinaryN(Plain(s)) && PrintN(Plain(s)) == [s] && MeaningN(o, Plain(s)) == Some(s != "")
  {
    hide Lookup, Ops;
    assert OrdinaryP(Str(s)) && PrintP(Str(s)) == [s] && MeaningP(o, Str(s)) == Some(s != "");
  }

  lemma Negated1(o: Oracle, spare: bool, a: string, b: string)
    requires Ordinary(a) && Ordinary(b)
    ensures Main(o, spare, ["!", a]) == Value(a == "")
    ensures Main(o, spare, ["!", a, "-a", b]) == Value(a == "" && b != "")
  {
    hide Main, Lookup, Ops, Plain;
    Spellings();
    PlainIs(o, a);
    PlainIs(o, b);
    var n := Not(Plain(a));
    assert OrdinaryN(n) && PrintN(n) == ["!", a] && MeaningN(o, n) == Some(a == "");
    JustAnd(o, spare, AndOne(n));
    var both := And(n, AndOne(Plain(b)));
    OneOf(o, Plain(b));
    assert PrintA(both) == ["!", a] + ["-a"] + [b] == ["!", a, "-a", b];
    JustAnd(o, spare, both);
  }

  lemma OneOf(o: Oracle, n: NotExpr)
    ensures PrintA(AndOne(n)) == PrintN(n) && MeaningA(o, AndOne(n)) == MeaningN(o, n)
    ensures OrdinaryA(AndOne(n)) == OrdinaryN(n)
  {
  }

  lemma JustAnd(o: Oracle, spare: bool, a: AndExpr)
    requires OrdinaryA(a)
    ensures Main(o, spare, PrintA(a)) == FromOracle(MeaningA(o, a))
  {
    hide Main, Lookup, Ops, FromOracle, OrdinaryA, PrintA, MeaningA;
    var e := One(a);
    assert OrdinaryO(e) && PrintO(e) == PrintA(a) && MeaningO(o, e) == MeaningA(o, a);
    OrdinaryReadsBack(o, spare, e);
  }

  /** An "-a" of two strings. */
  lemma Both(o: Oracle, a: string, b: string)
    requires Ordinary(a) && Ordinary(b)
    ensures var both := And(Plain(a), AndOne(Plain(b)));
      OrdinaryA(both) && PrintA(both) == [a, "-a", b] && MeaningA(o, both) == Some(a != "" && b != "")
  {
    hide Lookup, Ops, Plain;
    Spellings();
    PlainIs(o, a);
    PlainIs(o, b);
    OneOf(o, Plain(b));
    assert [a] + ["-a"] + [b] == [a, "-a", b];
  }

  /** Two sides of an "-o". */
  lemma Either(o: Oracle, a: AndExpr, b: AndExpr)
    requires OrdinaryA(a) && OrdinaryA(b) && MeaningA(o, a).Some? && MeaningA(o, b).Some?
    ensures var e := Or(a, One(b));
      && OrdinaryO(e) && PrintO(e) == PrintA(a) + ["-o"] + PrintA(b)
      && MeaningO(o, e) == Some(MeaningA(o, a).value || MeaningA(o, b).value)
  {
    hide Lookup, Ops, PrintA, MeaningA, OrdinaryA;
    Spellings();
    var e := One(b);
    assert OrdinaryO(e) && PrintO(e) == PrintA(b) && MeaningO(o, e) == MeaningA(o, b);
  }

  lemma Or2(o: Oracle, spare: bool, a: string, b: string, c: string)
    requires Ordinary(a) && Ordinary(b) && Ordinary(c)
    ensures Main(o, spare, [a, "-o", b]) == Value(a != "" || b != "")
    ensures Main(o, spare, [a, "-o", b, "-a", c]) == Value(a != "" || (b != "" && c != ""))
  {
    hide Main, Lookup, Ops, Plain, PrintO, MeaningO, OrdinaryO;
    var x, y, z := AndOne(Plain(a)), AndOne(Plain(b)), And(Plain(b), AndOne(Plain(c)));
    PlainIs(o, a);
    PlainIs(o, b);
    OneOf(o, Plain(a));
    OneOf(o, Plain(b));
    Both(o, b, c);
    hide PrintA, MeaningA, OrdinaryA;
    Either(o, x, y);
    OrdinaryReadsBack(o, spare, Or(x, One(y)));
    assert [a] + ["-o"] + [b] == [a, "-o", b];
    Either(o, x, z);
    OrdinaryReadsBack(o, spare, Or(x, One(z)));
    assert [a] + ["-o"] + [b, "-a", c] == [a, "-o", b, "-a", c];
  }

  lemma And2(o: Oracle, spare: bool, a: string, b: string, c: string)
    requires Ordinary(a) && Ordinary(b) && Ordinary(c)
    ensures Main(o, spare, [a, "-a", b]) == Value(a != "" && b != "")
    ensures Main(o, spare, [a, "-a", b, "-o", c]) == Value((a != "" && b != "") || c != "")
  {
    hide Main, Lookup, Ops, Plain, PrintO, MeaningO, OrdinaryO;
    var x, y := And(Plain(a), AndOne(Plain(b))), AndOne(Plain(c));
    Both(o, a, b);
    PlainIs(o, c);
    OneOf(o, Plain(c));
    hide PrintA, MeaningA, OrdinaryA;
    JustAnd(o, spare, x);
    Either(o, x, y);
    OrdinaryReadsBack(o, spare, Or(x, One(y)));
    assert [a, "-a", b] + ["-o"] + [c] == [a, "-a", b, "-o", c];
  }

  lemma Grouped(o: Oracle, spare: bool, a: string, b: string, c: string)
    requires Ordinary(a) && Ordinary(b) && Ordinary(c)
    ensures Main(o, spare, ["(", a, "-o", b, ")", "-a", c]) == Value((a != "" || b != "") && c != "")
  {
    hide Main, Lookup, Ops, Plain;
    Spellings();
    PlainIs(o, a);
    PlainIs(o, b);
    PlainIs(o, c);
    OneOf(o, Plain(a));
    OneOf(o, Plain(b));
    OneOf(o, Plain(c));
    var e := Or(AndOne(Plain(a)), One(AndOne(Plain(b))));
    Either(o, AndOne(Plain(a)), AndOne(Plain(b)));
    var n := Prim(Group(e));
    GroupIs(o, e);
    var all := And(n, AndOne(Plain(c)));
    hide PrintO, MeaningO, OrdinaryO;
    assert PrintN(n) == ["("] + ([a] + ["-o"] + [b]) + [")"];
    assert PrintA(all) == ["(", a, "-o", b, ")"] + ["-a"] + [c] == ["(", a, "-o", b, ")", "-a", c];
    JustAnd(o, spare, all);
  }

  lemma GroupIs(o: Oracle, e: Expr)
    ensures var n := Prim(Group(e));
      PrintN(n) == ["("] + PrintO(e) + [")"] && MeaningN(o, n) == MeaningO(o, e) && OrdinaryN(n) == OrdinaryO(e)
  {
    hide Lookup, Ops, PrintO, MeaningO, OrdinaryO;
    Spellings();
    var p := Group(e);
    assert PrintP(p) == ["("] + PrintO(e) + [")"] && MeaningP(o, p) == MeaningO(o, e) && OrdinaryP(p) == OrdinaryO(e);
  }

  /** Under the name "[" the arguments must end in "]", which is no part of the expression. */
  lemma Brackets(args: seq<string>, last: string)
    ensures Arguments(false, args) == Some(args)
    ensures Arguments(true, args + [last]) == (if last == "]" then Some(args) else None) && Arguments(true, []) == None
  {
    assert (args + [last])[..|args + [last]| - 1] == args;
  }
}
