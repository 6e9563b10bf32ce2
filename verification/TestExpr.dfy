/** test(1): the lexer, which looks ahead to tell operators from operands, and the recursive-descent
    evaluator, proved to accept exactly the printed forms of readable expressions. */
module TestExpr {

  import opened Common

  datatype Num =
    | EOI | FILRD | FILWR | FILEX | FILEXIST | FILREG | FILDIR | FILCDEV | FILBDEV | FILFIFO | FILSOCK | FILSYM
    | FILGZ | FILTT | FILSUID | FILSGID | FILSTCK | FILNT | FILOT | FILEQ | FILUID | FILGID | STREZ | STRNZ
    | STREQ | STRNE | STRLT | STRGT | INTEQ | INTNE | INTGE | INTGT | INTLE | INTLT | UNOT | BAND | BOR
    | LPAREN | RPAREN | OPERAND

  datatype Kind = UNOP | BINOP | BUNOP | BBINOP | PAREN

  datatype Op = Op(text: string, num: Num, kind: Kind)

  /** The operator table. */
  function Ops(): seq<Op> {
  [
    Op("-r", FILRD, UNOP), Op("-w", FILWR, UNOP), Op("-x", FILEX, UNOP), Op("-e", FILEXIST, UNOP),
    Op("-f", FILREG, UNOP), Op("-d", FILDIR, UNOP), Op("-c", FILCDEV, UNOP), Op("-b", FILBDEV, UNOP),
    Op("-p", FILFIFO, UNOP), Op("-u", FILSUID, UNOP), Op("-g", FILSGID, UNOP), Op("-k", FILSTCK, UNOP),
    Op("-s", FILGZ, UNOP), Op("-t", FILTT, UNOP), Op("-z", STREZ, UNOP), Op("-n", STRNZ, UNOP),
    Op("-h", FILSYM, UNOP), Op("-O", FILUID, UNOP), Op("-G", FILGID, UNOP), Op("-L", FILSYM, UNOP),
    Op("-S", FILSOCK, UNOP), Op("=", STREQ, BINOP), Op("!=", STRNE, BINOP), Op("<", STRLT, BINOP),
    Op(">", STRGT, BINOP), Op("-eq", INTEQ, BINOP), Op("-ne", INTNE, BINOP), Op("-ge", INTGE, BINOP),
    Op("-gt", INTGT, BINOP), Op("-le", INTLE, BINOP), Op("-lt", INTLT, BINOP), Op("-nt", FILNT, BINOP),
    Op("-ot", FILOT, BINOP), Op("-ef", FILEQ, BINOP), Op("!", UNOT, BUNOP), Op("-a", BAND, BBINOP),
    Op("-o", BOR, BBINOP), Op("(", LPAREN, PAREN), Op(")", RPAREN, PAREN)
  ]
  }

  /** The first entry spelled `s` from entry `i` on. */
  function LookupFrom(s: string, i: nat): (r: Option<Op>)
    requires i <= |Ops()|
    ensures r.Some? ==> r.value in Ops() && r.value.text == s
    decreases |Ops()| - i
  {
    if i == |Ops()| then None
    else if Ops()[i].text == s then Some(Ops()[i])
    else LookupFrom(s, i + 1)
  }

  function Lookup(s: string): (r: Option<Op>)
    ensures r.Some? ==> r.value in Ops() && r.value.text == s
  {
    LookupFrom(s, 0)
  }

  /** The place of `s` in the table, read off its characters. */
  function Slot(s: string): int {
    if |s| == 1 then
      match s[0]
      case '=' => 21 case '<' => 23 case '>' => 24 case '!' => 34 case '(' => 37 case ')' => 38 case _ => -1
    else if |s| == 2 && s[0] == '-' then
      match s[1]
      case 'r' => 0 case 'w' => 1 case 'x' => 2 case 'e' => 3 case 'f' => 4 case 'd' => 5 case 'c' => 6
      case 'b' => 7 case 'p' => 8 case 'u' => 9 case 'g' => 10 case 'k' => 11 case 's' => 12 case 't' => 13
      case 'z' => 14 case 'n' => 15 case 'h' => 16 case 'O' => 17 case 'G' => 18 case 'L' => 19 case 'S' => 20
      case 'a' => 35 case 'o' => 36 case _ => -1
    else if |s| == 2 then 22
    else if |s| == 3 then
      (match s[1]
       case 'e' => if s[2] == 'q' then 25 else 33
       case 'n' => if s[2] == 'e' then 26 else 31
       case 'g' => if s[2] == 'e' then 27 else 28
       case 'l' => if s[2] == 'e' then 29 else 30
       case _ => 32)
    else -1
  }

  lemma SlotsOfFileTests()
    ensures forall i :: 0 <= i < 14 ==> Slot(Ops()[i].text) == i
  {
  }

  lemma SlotsOfOtherUnary()
    ensures forall i :: 14 <= i < 25 ==> Slot(Ops()[i].text) == i
  {
  }

  lemma SlotsOfTheRest()
    ensures forall i :: 25 <= i < 39 ==> Slot(Ops()[i].text) == i
  {
  }

  lemma SlotsAgree(i: nat, j: nat)
    requires i < |Ops()| && j < |Ops()| && Ops()[i].text == Ops()[j].text
    ensures i == j
  {
    SlotsOfFileTests();
    SlotsOfOtherUnary();
    SlotsOfTheRest();
    assert Slot(Ops()[i].text) == i && Slot(Ops()[j].text) == j;
  }

  lemma {:induction false} LookupFromFinds(i: nat, j: nat)
    requires i <= j < |Ops()|
    ensures LookupFrom(Ops()[j].text, i) == Some(Ops()[j])
    decreases j - i
  {
    if i < j {
      if Ops()[i].text == Ops()[j].text {
        SlotsAgree(i, j);
      }
      LookupFromFinds(i + 1, j);
    }
  }

  /** No two entries are spelled alike: every entry is found by its spelling. */
  lemma LookupFinds(j: nat)
    requires j < |Ops()|
    ensures Lookup(Ops()[j].text) == Some(Ops()[j])
  {
    LookupFromFinds(0, j);
  }

  function NotOp(): Op { Op("!", UNOT, BUNOP) }
  function AndOp(): Op { Op("-a", BAND, BBINOP) }
  function OrOp(): Op { Op("-o", BOR, BBINOP) }
  function OpenOp(): Op { Op("(", LPAREN, PAREN) }
  function CloseOp(): Op { Op(")", RPAREN, PAREN) }

  /** The number belongs to a connective or a parenthesis. */
  predicate Structural(num: Num) {
    num == UNOT || num == BAND || num == BOR || num == LPAREN || num == RPAREN
  }

  /** The first 21 entries are unary, the next 13 binary, the last 5 neither. */
  lemma UnaryPart(i: nat)
    requires i < 21
    ensures Ops()[i].kind == UNOP && !Structural(Ops()[i].num) && Ops()[i].num != EOI && Ops()[i].num != OPERAND
  {
    assert i < 10 || 10 <= i < 21;
  }

  lemma BinaryPart(i: nat)
    requires 21 <= i < 34
    ensures Ops()[i].kind == BINOP && !Structural(Ops()[i].num) && Ops()[i].num != EOI && Ops()[i].num != OPERAND
  {
  }

  lemma LastPart(i: nat)
    requires 34 <= i < |Ops()|
    ensures Structural(Ops()[i].num) && Ops()[i].kind != UNOP && Ops()[i].kind != BINOP
    ensures Ops()[i].num == UNOT <==> i == 34
    ensures Ops()[i].num == BAND <==> i == 35
    ensures Ops()[i].num == BOR <==> i == 36
    ensures Ops()[i].num == LPAREN <==> i == 37
    ensures Ops()[i].num == RPAREN <==> i == 38
  {
    assert i == 34 || i == 35 || i == 36 || i == 37 || i == 38;
  }

  lemma TableFacts(op: Op)
    requires op in Ops()
    ensures op.num != EOI && op.num != OPERAND
    ensures op.kind == UNOP || op.kind == BINOP <==> !Structural(op.num)
    ensures op.num == UNOT <==> op == NotOp()
    ensures op.num == BAND <==> op == AndOp()
    ensures op.num == BOR <==> op == OrOp()
    ensures op.num == LPAREN <==> op == OpenOp()
    ensures op.num == RPAREN <==> op == CloseOp()
  {
    var i :| 0 <= i < |Ops()| && Ops()[i] == op;
    NamedEntries();
    LastPart(34);
    LastPart(35);
    LastPart(36);
    LastPart(37);
    LastPart(38);
    if i < 21 {
      UnaryPart(i);
    } else if i < 34 {
      BinaryPart(i);
    } else {
      LastPart(i);
    }
  }

  lemma NamedEntries()
    ensures |Ops()| == 39
    ensures Ops()[34] == NotOp() && Ops()[35] == AndOp() && Ops()[36] == OrOp()
    ensures Ops()[37] == OpenOp() && Ops()[38] == CloseOp()
  {
  }

  lemma TextsDiffer()
    ensures NotOp().text != OpenOp().text && NotOp().text != CloseOp().text && OpenOp().text != CloseOp().text
    ensures OrOp().text != AndOp().text && OrOp().text != CloseOp().text && AndOp().text != CloseOp().text
  {
  }

  lemma LookupFacts()
    ensures Lookup(NotOp().text) == Some(NotOp()) && Lookup(AndOp().text) == Some(AndOp())
    ensures Lookup(OrOp().text) == Some(OrOp())
    ensures Lookup(OpenOp().text) == Some(OpenOp()) && Lookup(CloseOp().text) == Some(CloseOp())
  {
    hide Ops, NotOp, AndOp, OrOp, OpenOp, CloseOp, Lookup, LookupFrom;
    NamedEntries();
    LookupFinds(34);
    LookupFinds(35);
    LookupFinds(36);
    LookupFinds(37);
    LookupFinds(38);
  }

  // ---------------------------------------------------------------- the lexer

  /** What a token is taken for: its number, and its table entry unless it is an operand. */
  datatype Lexed = Lexed(num: Num, op: Option<Op>)

  /** With the cursor at `wp`: is the unary operator there really an operand? */
  predicate IsOperand(argv: seq<string>, wp: nat)
    requires wp < |argv|
  {
    if wp + 1 == |argv| then true
    else if wp + 2 == |argv| then false
    else
      var op := Lookup(argv[wp + 1]);
      op.Some? && op.value.kind == BINOP && argv[wp + 2] != CloseOp().text
  }

  /** `t_lex` of the token at `q` while the cursor is at `wp`; `argv[|argv|]` is the terminator. */
  function LexAt(argv: seq<string>, wp: nat, q: nat): (r: Lexed)
    requires wp <= q <= |argv|
    ensures r.op.Some? ==> q < |argv| && Lookup(argv[q]) == r.op && r.num == r.op.value.num
    ensures r.op.None? ==> r.num == if q == |argv| then EOI else OPERAND
  {
    if q == |argv| then Lexed(EOI, None)
    else
      var op := Lookup(argv[q]);
      if op.None? then Lexed(OPERAND, None)
      else if (op.value.kind == UNOP && IsOperand(argv, wp)) || (op.value.num == LPAREN && wp + 1 == |argv|) then
        Lexed(OPERAND, None)
      else Lexed(op.value.num, op)
  }

  // ---------------------------------------------------------------- the evaluator

  /** What file status, number parsing and the like answer; None where the program exits instead. */
  datatype Oracle = Oracle(test: (Num, string) -> Option<bool>, compare: (Num, string, string) -> Option<bool>)

  /** How an evaluation ends: with a value, by exiting with status 2, or by reading past the terminator. */
  datatype Outcome = Value(b: bool) | Exit | Overrun

  function FromOracle(o: Option<bool>): Outcome {
    if o.Some? then Value(o.value) else Exit
  }

  /** `strcmp(s, t) < 0`. */
  predicate Less(s: string, t: string) {
    t != [] && (s == [] || s[0] < t[0] || (s[0] == t[0] && Less(s[1..], t[1..])))
  }

  /** A unary primary applied to its operand. */
  function TestUnary(o: Oracle, num: Num, s: string): Option<bool> {
    match num
    case STREZ => Some(|s| == 0)
    case STRNZ => Some(|s| != 0)
    case _ => o.test(num, s)
  }

  /** A binary primary applied to its operands. */
  function TestBinary(o: Oracle, num: Num, s: string, t: string): Option<bool> {
    match num
    case STREQ => Some(s == t)
    case STRNE => Some(s != t)
    case STRLT => Some(Less(s, t))
    case STRGT => Some(Less(t, s))
    case _ => o.compare(num, s, t)
  }

  /** An outcome and the final cursor. */
  type Parsed = (Outcome, nat)

  /** `binop`, with the cursor on the left operand. */
  function ParseBinop(o: Oracle, argv: seq<string>, wp: nat, op: Op): Parsed
    requires wp + 1 < |argv|
  {
    if wp + 2 == |argv| then (Exit, wp + 2)
    else (FromOracle(TestBinary(o, op.num, argv[wp], argv[wp + 2])), wp + 2)
  }

  /** `oexpr` started on the token at `wp`.  Behind the terminator there is another one (`spare`), or
      nothing that may be read. */
  function ParseO(o: Oracle, spare: bool, argv: seq<string>, wp: nat): (r: Parsed)
    requires wp <= |argv|
    ensures r.0.Value? ==> wp <= r.1 <= |argv|
    decreases |argv| - wp, 4
  {
    var (left, p) := ParseA(o, spare, argv, wp);
    if !left.Value? then (left, p)
    else if p == |argv| then (if spare then left else Overrun, p)
    else if LexAt(argv, p + 1, p + 1).num == BOR then
      var (right, q) := ParseO(o, spare, argv, p + 2);
      (if right.Value? then Value(right.b || left.b) else right, q)
    else (left, p)
  }

  /** `aexpr`. */
  function ParseA(o: Oracle, spare: bool, argv: seq<string>, wp: nat): (r: Parsed)
    requires wp <= |argv|
    ensures r.0.Value? ==> wp <= r.1 <= |argv|
    decreases |argv| - wp, 3
  {
    var (left, p) := ParseN(o, spare, argv, wp);
    if !left.Value? then (left, p)
    else if p == |argv| then (if spare then left else Overrun, p)
    else if LexAt(argv, p + 1, p + 1).num == BAND then
      var (right, q) := ParseA(o, spare, argv, p + 2);
      (if right.Value? then Value(right.b && left.b) else right, q)
    else (left, p)
  }

  /** `nexpr`. */
  function ParseN(o: Oracle, spare: bool, argv: seq<string>, wp: nat): (r: Parsed)
    requires wp <= |argv|
    ensures r.0.Value? ==> wp <= r.1 <= |argv|
    decreases |argv| - wp, 2
  {
    if LexAt(argv, wp, wp).num == UNOT && wp < |argv| then
      var (v, p) := ParseN(o, spare, argv, wp + 1);
      (if v.Value? then Value(!v.b) else v, p)
    else ParseP(o, spare, argv, wp)
  }

  /** `primary`, `binop` included. */
  function ParseP(o: Oracle, spare: bool, argv: seq<string>, wp: nat): (r: Parsed)
    requires wp <= |argv|
    ensures r.0.Value? ==> wp <= r.1 <= |argv|
    decreases |argv| - wp, 1
  {
    if wp == |argv| then (Value(false), wp)
    else if LexAt(argv, wp, wp).num == LPAREN then ParseGroup(o, spare, argv, wp)
    else ParseFlat(o, argv, wp)
  }

  /** The part of `primary` behind an open parenthesis. */
  function ParseGroup(o: Oracle, spare: bool, argv: seq<string>, wp: nat): (r: Parsed)
    requires wp < |argv|
    ensures r.0.Value? ==> wp <= r.1 <= |argv|
    decreases |argv| - wp, 0
  {
    if LexAt(argv, wp + 1, wp + 1).num == RPAREN then (Value(false), wp + 1)
    else
      var (v, p) := ParseO(o, spare, argv, wp + 1);
      if !v.Value? then (v, p)
      else if p == |argv| then (if spare then Exit else Overrun, p)
      else if LexAt(argv, p + 1, p + 1).num == RPAREN then (v, p + 1)
      else (Exit, p + 1)
  }

  /** The rest of it: operands with or without an operator. */
  function ParseFlat(o: Oracle, argv: seq<string>, wp: nat): (r: Parsed)
    requires wp < |argv|
    ensures r.0.Value? ==> wp <= r.1 < |argv|
    ensures !r.0.Overrun?
  {
    var n := LexAt(argv, wp, wp);
    if n.op.Some? && n.op.value.kind == UNOP then
      if wp + 1 == |argv| then (Exit, wp + 1)
      else (FromOracle(TestUnary(o, n.num, argv[wp + 1])), wp + 1)
    else
      var next := LexAt(argv, wp, wp + 1);
      if next.op.Some? && next.op.value.kind == BINOP then ParseBinop(o, argv, wp, next.op.value)
      else (Value(|argv[wp]| > 0), wp)
  }

  // ---------------------------------------------------------------- expressions

  /** The grammar: -a binds tighter than -o, both nest to the right, ! negates what follows it. */
  datatype Expr = One(a: AndExpr) | Or(a: AndExpr, rest: Expr)
  datatype AndExpr = AndOne(n: NotExpr) | And(n: NotExpr, rest: AndExpr)
  datatype NotExpr = Prim(p: Primary) | Not(n: NotExpr)
  datatype Primary =
    | Str(s: string)
    | Unary(op: Op, s: string)
    | Binary(s: string, op: Op, t: string)
    | Group(e: Expr)
    | Nothing  // an empty pair of parentheses

  function PrintO(e: Expr): (r: seq<string>)
    ensures |r| > 0
  {
    match e
    case One(a) => PrintA(a)
    case Or(a, rest) => PrintA(a) + [OrOp().text] + PrintO(rest)
  }

  function PrintA(a: AndExpr): (r: seq<string>)
    ensures |r| > 0
  {
    match a
    case AndOne(n) => PrintN(n)
    case And(n, rest) => PrintN(n) + [AndOp().text] + PrintA(rest)
  }

  function PrintN(n: NotExpr): (r: seq<string>)
    ensures |r| > 0
  {
    match n
    case Prim(p) => PrintP(p)
    case Not(m) => [NotOp().text] + PrintN(m)
  }

  function PrintP(p: Primary): (r: seq<string>)
    ensures |r| > 0
  {
    match p
    case Str(s) => [s]
    case Unary(op, s) => [op.text, s]
    case Binary(s, op, t) => [s, op.text, t]
    case Group(e) => [OpenOp().text] + PrintO(e) + [CloseOp().text]
    case Nothing => [OpenOp().text, CloseOp().text]
  }

  /** Both sides of -a and -o are evaluated, the left one first; the first exit ends the evaluation. */
  function MeaningO(o: Oracle, e: Expr): Option<bool> {
    match e
    case One(a) => MeaningA(o, a)
    case Or(a, rest) =>
      var left := MeaningA(o, a);
      if left.None? then None
      else
        var right := MeaningO(o, rest);
        if right.None? then None else Some(left.value || right.value)
  }

  function MeaningA(o: Oracle, a: AndExpr): Option<bool> {
    match a
    case AndOne(n) => MeaningN(o, n)
    case And(n, rest) =>
      var left := MeaningN(o, n);
      if left.None? then None
      else
        var right := MeaningA(o, rest);
        if right.None? then None else Some(left.value && right.value)
  }

  function MeaningN(o: Oracle, n: NotExpr): Option<bool> {
    match n
    case Prim(p) => MeaningP(o, p)
    case Not(m) =>
      var v := MeaningN(o, m);
      if v.None? then None else Some(!v.value)
  }

  function MeaningP(o: Oracle, p: Primary): Option<bool> {
    match p
    case Str(s) => Some(|s| > 0)
    case Unary(op, s) => TestUnary(o, op.num, s)
    case Binary(s, op, t) => TestBinary(o, op.num, s, t)
    case Group(e) => MeaningO(o, e)
    case Nothing => Some(false)
  }

  // ---------------------------------------------------------------- which expressions read back

  predicate IsKind(s: string, kind: Kind) {
    Lookup(s).Some? && Lookup(s).value.kind == kind
  }

  /** A string alone, before the token `after` (None at the end), is not taken for anything else: it is
      not "!"; a unary operator or "(" only as the very last token; and no binary operator follows. */
  predicate PlainStr(s: string, after: Option<string>) {
    && s != NotOp().text
    && (IsKind(s, UNOP) || s == OpenOp().text ==> after.None?)
    && (after.Some? ==> !IsKind(after.value, BINOP))
  }

  /** The operand of a unary operator may be anything, unless it is spelled like a binary operator with
      another token but ")" behind it: then the unary operator itself is taken for an operand. */
  predicate PlainUnary(op: Op, s: string, after: Option<string>) {
    op in Ops() && op.kind == UNOP && (IsKind(s, BINOP) ==> after == None || after == Some(CloseOp().text))
  }

  /** The left operand of a binary operator may be a unary operator unless the right one is ")". */
  predicate PlainBinary(s: string, op: Op, t: string) {
    && op in Ops() && op.kind == BINOP && s != NotOp().text && s != OpenOp().text
    && (IsKind(s, UNOP) ==> t != CloseOp().text)
  }

  predicate ReadableO(e: Expr, after: Option<string>) {
    match e
    case One(a) => ReadableA(a, after) && after != Some(OrOp().text)
    case Or(a, rest) => ReadableA(a, Some(OrOp().text)) && ReadableO(rest, after)
  }

  predicate ReadableA(a: AndExpr, after: Option<string>) {
    match a
    case AndOne(n) => ReadableN(n, after) && after != Some(AndOp().text)
    case And(n, rest) => ReadableN(n, Some(AndOp().text)) && ReadableA(rest, after)
  }

  predicate ReadableN(n: NotExpr, after: Option<string>) {
    match n
    case Prim(p) => ReadableP(p, after)
    case Not(m) => ReadableN(m, after)
  }

  predicate ReadableP(p: Primary, after: Option<string>) {
    match p
    case Str(s) => PlainStr(s, after)
    case Unary(op, s) => PlainUnary(op, s, after)
    case Binary(s, op, t) => PlainBinary(s, op, t)
    case Group(e) => ReadableO(e, Some(CloseOp().text)) && PrintO(e)[0] != CloseOp().text
    case Nothing => true
  }

  // ---------------------------------------------------------------- reading printed expressions

  /** The token at `q`, None at the end. */
  function TokenAt(argv: seq<string>, q: nat): Option<string>
    requires q <= |argv|
  {
    if q < |argv| then Some(argv[q]) else None
  }

  /** `toks` stands in `argv` at `wp`, and `after` follows it. */
  predicate Stands(argv: seq<string>, wp: nat, toks: seq<string>, after: Option<string>) {
    wp + |toks| <= |argv| && argv[wp..wp + |toks|] == toks && TokenAt(argv, wp + |toks|) == after
  }

  /** The outcome of an expression that ends before position `q`. */
  predicate Yields(r: Parsed, meaning: Option<bool>, q: nat) {
    if meaning.Some? then r == (Value(meaning.value), q - 1) else r.0 == Exit
  }

  /** What the table says about a token. */
  lemma SpelledLike(s: string)
    ensures Lookup(s).Some? && Lookup(s).value.num == UNOT <==> s == NotOp().text
    ensures Lookup(s).Some? && Lookup(s).value.num == BAND <==> s == AndOp().text
    ensures Lookup(s).Some? && Lookup(s).value.num == BOR <==> s == OrOp().text
    ensures Lookup(s).Some? && Lookup(s).value.num == LPAREN <==> s == OpenOp().text
    ensures Lookup(s).Some? && Lookup(s).value.num == RPAREN <==> s == CloseOp().text
    ensures Lookup(s).Some? ==>
      && (Lookup(s).value.kind == UNOP || Lookup(s).value.kind == BINOP <==> !Structural(Lookup(s).value.num))
      && Lookup(s).value.num != EOI && Lookup(s).value.num != OPERAND
  {
    hide Ops, NotOp, AndOp, OrOp, OpenOp, CloseOp, Lookup, LookupFrom;
    LookupFacts();
    if Lookup(s).Some? {
      TableFacts(Lookup(s).value);
    }
  }

  /** What the lexer makes of the token under the cursor. */
  lemma LexHere(argv: seq<string>, q: nat)
    requires q < |argv|
    ensures LexAt(argv, q, q).num == UNOT <==> argv[q] == NotOp().text
    ensures LexAt(argv, q, q).num == BAND <==> argv[q] == AndOp().text
    ensures LexAt(argv, q, q).num == BOR <==> argv[q] == OrOp().text
    ensures LexAt(argv, q, q).num == RPAREN <==> argv[q] == CloseOp().text
    ensures LexAt(argv, q, q).num == LPAREN <==> argv[q] == OpenOp().text && q + 1 < |argv|
    ensures LexAt(argv, q, q).op.Some? && LexAt(argv, q, q).op.value.kind == UNOP <==>
      IsKind(argv[q], UNOP) && !IsOperand(argv, q)
  {
    hide Ops, NotOp, AndOp, OrOp, OpenOp, CloseOp, Lookup, LookupFrom, IsOperand;
    SpelledLike(argv[q]);
  }

  /** What the lexer makes of the token behind the cursor. */
  lemma LexNext(argv: seq<string>, q: nat)
    requires q < |argv|
    ensures var next := LexAt(argv, q, q + 1);
      next.op.Some? && next.op.value.kind == BINOP <==> q + 1 < |argv| && IsKind(argv[q + 1], BINOP)
  {
    hide Ops, NotOp, AndOp, OrOp, OpenOp, CloseOp, Lookup, LookupFrom, IsOperand;
    if q + 1 < |argv| {
      SpelledLike(argv[q + 1]);
    }
  }

  lemma KindOf(op: Op)
    requires op in Ops()
    ensures Lookup(op.text) == Some(op)
  {
    hide Ops, NotOp, AndOp, OrOp, OpenOp, CloseOp, Lookup, LookupFrom;
    var j :| 0 <= j < |Ops()| && Ops()[j] == op;
    LookupFinds(j);
  }

  // ---------------------------------------------------------------- printed expressions read back

  /** The parts of a printed expression stand one behind the other. */
  lemma StandsParts(argv: seq<string>, wp: nat, left: seq<string>, mid: string, right: seq<string>,
                    after: Option<string>)
    requires Stands(argv, wp, left + [mid] + right, after)
    ensures Stands(argv, wp, left, Some(mid)) && argv[wp + |left|] == mid
    ensures Stands(argv, wp + |left| + 1, right, after)
  {
    var all, k := left + [mid] + right, wp + |left|;
    assert argv[wp..wp + |all|][..|left|] == argv[wp..k];
    assert argv[wp..wp + |all|][|left|] == argv[k];
    assert argv[wp..wp + |all|][|left| + 1..] == argv[k + 1..k + 1 + |right|];
  }

  lemma StandsEnd(argv: seq<string>, wp: nat, toks: seq<string>, after: Option<string>)
    requires Stands(argv, wp, toks, after)
    ensures wp + |toks| <= |argv| && TokenAt(argv, wp + |toks|) == after
    ensures forall i {:trigger toks[i]} :: 0 <= i < |toks| ==> argv[wp + i] == toks[i]
  {
    forall i | 0 <= i < |toks| ensures argv[wp + i] == toks[i] {
      assert argv[wp..wp + |toks|][i] == toks[i];
    }
  }

  /** The check for -o or -a behind an operand sees the next token. */
  lemma FollowedBy(argv: seq<string>, q: nat)
    requires 0 < q <= |argv|
    ensures LexAt(argv, q, q).num == BOR <==> TokenAt(argv, q) == Some(OrOp().text)
    ensures LexAt(argv, q, q).num == BAND <==> TokenAt(argv, q) == Some(AndOp().text)
  {
    hide Ops, NotOp, AndOp, OrOp, OpenOp, CloseOp, Lookup, LookupFrom, IsOperand;
    if q < |argv| {
      LexHere(argv, q);
    }
  }

  lemma FirstToken(p: Primary, after: Option<string>)
    requires ReadableP(p, after)
    ensures PrintP(p)[0] != NotOp().text
  {
    hide Ops, NotOp, AndOp, OrOp, OpenOp, CloseOp, Lookup, LookupFrom;
    TextsDiffer();
    if p.Unary? {
      TableFacts(p.op);
      KindOf(p.op);
      SpelledLike(p.op.text);
    }
  }

  /** `oexpr` after its left operand. */
  lemma OrStep(o: Oracle, spare: bool, argv: seq<string>, wp: nat)
    requires wp <= |argv|
    ensures var (left, p) := ParseA(o, spare, argv, wp);
      ParseO(o, spare, argv, wp) ==
        if !left.Value? then (left, p)
        else if p == |argv| then (if spare then left else Overrun, p)
        else if TokenAt(argv, p + 1) == Some(OrOp().text) then
          var (right, q) := ParseO(o, spare, argv, p + 2);
          (if right.Value? then Value(right.b || left.b) else right, q)
        else (left, p)
  {
    hide Ops, NotOp, AndOp, OrOp, OpenOp, CloseOp, Lookup, LookupFrom, IsOperand, LexAt, ParseA;
    var (left, p) := ParseA(o, spare, argv, wp);
    if left.Value? && p < |argv| {
      FollowedBy(argv, p + 1);
    }
  }

  /** `aexpr` after its left operand. */
  lemma AndStep(o: Oracle, spare: bool, argv: seq<string>, wp: nat)
    requires wp <= |argv|
    ensures var (left, p) := ParseN(o, spare, argv, wp);
      ParseA(o, spare, argv, wp) ==
        if !left.Value? then (left, p)
        else if p == |argv| then (if spare then left else Overrun, p)
        else if TokenAt(argv, p + 1) == Some(AndOp().text) then
          var (right, q) := ParseA(o, spare, argv, p + 2);
          (if right.Value? then Value(right.b && left.b) else right, q)
        else (left, p)
  {
    hide Ops, NotOp, AndOp, OrOp, OpenOp, CloseOp, Lookup, LookupFrom, IsOperand, LexAt, ParseN;
    var (left, p) := ParseN(o, spare, argv, wp);
    if left.Value? && p < |argv| {
      FollowedBy(argv, p + 1);
    }
  }

  /** `nexpr`: a negation or a primary. */
  lemma NotStep(o: Oracle, spare: bool, argv: seq<string>, wp: nat)
    requires wp < |argv|
    ensures ParseN(o, spare, argv, wp) ==
      if argv[wp] == NotOp().text then
        var (v, p) := ParseN(o, spare, argv, wp + 1);
        (if v.Value? then Value(!v.b) else v, p)
      else ParseP(o, spare, argv, wp)
  {
    hide Ops, NotOp, AndOp, OrOp, OpenOp, CloseOp, Lookup, LookupFrom, IsOperand, LexAt, ParseP;
    LexHere(argv, wp);
  }

  /** `primary` on an open parenthesis. */
  lemma GroupStep(o: Oracle, spare: bool, argv: seq<string>, wp: nat)
    requires wp + 1 < |argv| && argv[wp] == OpenOp().text
    ensures ParseP(o, spare, argv, wp) ==
      if argv[wp + 1] == CloseOp().text then (Value(false), wp + 1)
      else
        var (v, p) := ParseO(o, spare, argv, wp + 1);
        if !v.Value? then (v, p)
        else if p == |argv| then (if spare then Exit else Overrun, p)
        else if TokenAt(argv, p + 1) == Some(CloseOp().text) then (v, p + 1)
        else (Exit, p + 1)
  {
    hide Ops, NotOp, AndOp, OrOp, OpenOp, CloseOp, Lookup, LookupFrom, IsOperand, LexAt, ParseO, ParseP;
    OpensGroup(o, spare, argv, wp);
    ClosedBy(argv, wp + 1);
    var (v, p) := ParseO(o, spare, argv, wp + 1);
    if v.Value? && p < |argv| {
      ClosedBy(argv, p + 1);
    }
  }

  lemma OpensGroup(o: Oracle, spare: bool, argv: seq<string>, wp: nat)
    requires wp + 1 < |argv| && argv[wp] == OpenOp().text
    ensures ParseP(o, spare, argv, wp) == ParseGroup(o, spare, argv, wp)
  {
    hide Ops, NotOp, AndOp, OrOp, OpenOp, CloseOp, Lookup, LookupFrom, IsOperand, LexAt, ParseGroup, ParseFlat;
    LexHere(argv, wp);
  }

  lemma ClosedBy(argv: seq<string>, q: nat)
    requires q <= |argv|
    ensures LexAt(argv, q, q).num == RPAREN <==> TokenAt(argv, q) == Some(CloseOp().text)
  {
    hide Ops, NotOp, AndOp, OrOp, OpenOp, CloseOp, Lookup, LookupFrom, IsOperand;
    if q < |argv| {
      LexHere(argv, q);
    }
  }

  lemma {:induction false} ReadO(o: Oracle, spare: bool, argv: seq<string>, wp: nat, e: Expr, after: Option<string>)
    requires ReadableO(e, after) && Stands(argv, wp, PrintO(e), after)
    ensures Yields(ParseO(o, spare, argv, wp), MeaningO(o, e), wp + |PrintO(e)|)
    decreases e, 4
  {
    hide Ops, NotOp, AndOp, OrOp, OpenOp, CloseOp, Lookup, LookupFrom, IsOperand, LexAt, Stands, ParseA, PrintA;
    hide MeaningA, ReadableA, ParseN, PrintN, MeaningN, ReadableN, ParseP, PrintP, MeaningP, ReadableP, ParseO;
    StandsEnd(argv, wp, PrintO(e), after);
    OrStep(o, spare, argv, wp);
    match e
    case One(a) =>
      ReadA(o, spare, argv, wp, a, after);
    case Or(a, rest) =>
      var p := wp + |PrintA(a)|;
      StandsParts(argv, wp, PrintA(a), OrOp().text, PrintO(rest), after);
      ReadA(o, spare, argv, wp, a, Some(OrOp().text));
      ReadO(o, spare, argv, p + 1, rest, after);
  }

  lemma {:induction false} ReadA(o: Oracle, spare: bool, argv: seq<string>, wp: nat, a: AndExpr, after: Option<string>)
    requires ReadableA(a, after) && Stands(argv, wp, PrintA(a), after)
    ensures Yields(ParseA(o, spare, argv, wp), MeaningA(o, a), wp + |PrintA(a)|)
    decreases a, 3
  {
    hide Ops, NotOp, AndOp, OrOp, OpenOp, CloseOp, Lookup, LookupFrom, IsOperand, LexAt, Stands, ParseO, PrintO;
    hide MeaningO, ReadableO, ParseN, PrintN, MeaningN, ReadableN, ParseP, PrintP, MeaningP, ReadableP, ParseA;
    StandsEnd(argv, wp, PrintA(a), after);
    AndStep(o, spare, argv, wp);
    match a
    case AndOne(n) =>
      ReadN(o, spare, argv, wp, n, after);
    case And(n, rest) =>
      var p := wp + |PrintN(n)|;
      StandsParts(argv, wp, PrintN(n), AndOp().text, PrintA(rest), after);
      ReadN(o, spare, argv, wp, n, Some(AndOp().text));
      ReadA(o, spare, argv, p + 1, rest, after);
  }

  lemma {:induction false} ReadN(o: Oracle, spare: bool, argv: seq<string>, wp: nat, n: NotExpr, after: Option<string>)
    requires ReadableN(n, after) && Stands(argv, wp, PrintN(n), after)
    ensures Yields(ParseN(o, spare, argv, wp), MeaningN(o, n), wp + |PrintN(n)|)
    decreases n, 2
  {
    hide Ops, NotOp, AndOp, OrOp, OpenOp, CloseOp, Lookup, LookupFrom, IsOperand, LexAt, Stands, ParseO, PrintO;
    hide MeaningO, ReadableO, ParseA, PrintA, MeaningA, ReadableA, ParseP, PrintP, MeaningP, ReadableP, ParseN;
    StandsEnd(argv, wp, PrintN(n), after);
    NotStep(o, spare, argv, wp);
    match n
    case Prim(p) =>
      FirstToken(p, after);
      assert argv[wp + 0] == PrintP(p)[0];
      ReadP(o, spare, argv, wp, p, after);
    case Not(m) =>
      assert [] + [NotOp().text] + PrintN(m) == PrintN(n);
      StandsParts(argv, wp, [], NotOp().text, PrintN(m), after);
      ReadN(o, spare, argv, wp + 1, m, after);
  }

  lemma {:induction false} ReadP(o: Oracle, spare: bool, argv: seq<string>, wp: nat, p: Primary, after: Option<string>)
    requires ReadableP(p, after) && Stands(argv, wp, PrintP(p), after)
    ensures Yields(ParseP(o, spare, argv, wp), MeaningP(o, p), wp + |PrintP(p)|)
    decreases p, 1
  {
    hide Ops, NotOp, AndOp, OrOp, OpenOp, CloseOp, Lookup, LookupFrom, IsOperand, LexAt, ParseP, MeaningP;
    hide Stands, ParseO, PrintO, MeaningO, ReadableO, ParseA, PrintA, MeaningA, ReadableA, ParseN, PrintN;
    hide MeaningN, ReadableN;
    StandsEnd(argv, wp, PrintP(p), after);
    match p
    case Str(s) =>
      assert PrintP(p)[0] == s;
      ReadStr(o, spare, argv, wp, s, after);
    case Unary(op, s) =>
      assert PrintP(p)[0] == op.text && PrintP(p)[1] == s;
      ReadUnary(o, spare, argv, wp, op, s, after);
    case Binary(s, op, t) =>
      assert PrintP(p)[0] == s && PrintP(p)[1] == op.text && PrintP(p)[2] == t;
      ReadBinary(o, spare, argv, wp, s, op, t);
    case Group(e) =>
      assert [] + [OpenOp().text] + (PrintO(e) + [CloseOp().text]) == PrintP(p);
      StandsParts(argv, wp, [], OpenOp().text, PrintO(e) + [CloseOp().text], after);
      assert PrintO(e) + [CloseOp().text] + [] == PrintO(e) + [CloseOp().text];
      StandsParts(argv, wp + 1, PrintO(e), CloseOp().text, [], after);
      StandsEnd(argv, wp + 1, PrintO(e), Some(CloseOp().text));
      assert argv[wp + 1 + 0] == PrintO(e)[0];
      ReadO(o, spare, argv, wp + 1, e, Some(CloseOp().text));
      ReadGroup(o, spare, argv, wp, |PrintO(e)|, MeaningO(o, e));
      MeaningOfGroup(o, e);
    case Nothing =>
      assert PrintP(p)[0] == OpenOp().text && PrintP(p)[1] == CloseOp().text;
      ReadNothing(o, spare, argv, wp);
  }

  lemma MeaningOfGroup(o: Oracle, e: Expr)
    ensures MeaningP(o, Group(e)) == MeaningO(o, e) && |PrintP(Group(e))| == |PrintO(e)| + 2
  {
  }

  lemma ReadStr(o: Oracle, spare: bool, argv: seq<string>, wp: nat, s: string, after: Option<string>)
    requires PlainStr(s, after) && wp < |argv| && argv[wp] == s && TokenAt(argv, wp + 1) == after
    ensures Yields(ParseP(o, spare, argv, wp), MeaningP(o, Str(s)), wp + 1)
  {
    hide Ops, NotOp, AndOp, OrOp, OpenOp, CloseOp, Lookup, LookupFrom, LexAt, ParseGroup, TestUnary, TestBinary;
    LexHere(argv, wp);
    LexNext(argv, wp);
  }

  lemma ReadUnary(o: Oracle, spare: bool, argv: seq<string>, wp: nat, op: Op, s: string, after: Option<string>)
    requires PlainUnary(op, s, after) && wp + 1 < |argv| && argv[wp] == op.text && argv[wp + 1] == s
    requires TokenAt(argv, wp + 2) == after
    ensures Yields(ParseP(o, spare, argv, wp), MeaningP(o, Unary(op, s)), wp + 2)
  {
    hide Ops, NotOp, AndOp, OrOp, OpenOp, CloseOp, Lookup, LookupFrom, ParseGroup, TestUnary, TestBinary;
    KindOf(op);
    TableFacts(op);
  }

  lemma ReadBinary(o: Oracle, spare: bool, argv: seq<string>, wp: nat, s: string, op: Op, t: string)
    requires PlainBinary(s, op, t) && wp + 2 < |argv|
    requires argv[wp] == s && argv[wp + 1] == op.text && argv[wp + 2] == t
    ensures Yields(ParseP(o, spare, argv, wp), MeaningP(o, Binary(s, op, t)), wp + 3)
  {
    hide Ops, NotOp, AndOp, OrOp, OpenOp, CloseOp, Lookup, LookupFrom, ParseGroup, TestUnary, TestBinary;
    KindOf(op);
    TableFacts(op);
    SpelledLike(s);
  }

  lemma ReadGroup(o: Oracle, spare: bool, argv: seq<string>, wp: nat, n: nat, meaning: Option<bool>)
    requires 0 < n && wp + n + 1 < |argv| && argv[wp] == OpenOp().text && argv[wp + n + 1] == CloseOp().text
    requires argv[wp + 1] != CloseOp().text && Yields(ParseO(o, spare, argv, wp + 1), meaning, wp + 1 + n)
    ensures Yields(ParseP(o, spare, argv, wp), meaning, wp + n + 2)
  {
    hide Ops, NotOp, AndOp, OrOp, OpenOp, CloseOp, Lookup, LookupFrom, LexAt, ParseO, ParseP;
    GroupStep(o, spare, argv, wp);
  }

  lemma ReadNothing(o: Oracle, spare: bool, argv: seq<string>, wp: nat)
    requires wp + 1 < |argv| && argv[wp] == OpenOp().text && argv[wp + 1] == CloseOp().text
    ensures Yields(ParseP(o, spare, argv, wp), MeaningP(o, Nothing), wp + 2)
  {
    hide Ops, NotOp, AndOp, OrOp, OpenOp, CloseOp, Lookup, LookupFrom, LexAt, ParseO, ParseP;
    GroupStep(o, spare, argv, wp);
  }

  // ---------------------------------------------------------------- what is read was printed

  /** The tokens from `wp` to `q` are `toks`. */
  predicate Spans(argv: seq<string>, wp: nat, q: nat, toks: seq<string>) {
    wp <= q < |argv| && argv[wp..q + 1] == toks
  }

  lemma SpansParts(argv: seq<string>, wp: nat, p: nat, q: nat, left: seq<string>, right: seq<string>)
    requires (wp == p + 1 && left == []) || Spans(argv, wp, p, left)
    requires p + 1 < |argv| && Spans(argv, p + 2, q, right)
    ensures Spans(argv, wp, q, left + [argv[p + 1]] + right)
  {
    assert wp <= p ==> argv[wp..p + 1] == left;
    assert argv[wp..q + 1] == argv[wp..p + 1] + [argv[p + 1]] + argv[p + 2..q + 1];
  }

  lemma {:induction false} BuildO(o: Oracle, spare: bool, argv: seq<string>, wp: nat) returns (e: Expr)
    requires wp <= |argv| && ParseO(o, spare, argv, wp).0.Value? && ParseO(o, spare, argv, wp).1 < |argv|
    ensures var (v, q) := ParseO(o, spare, argv, wp);
      && Spans(argv, wp, q, PrintO(e)) && ReadableO(e, TokenAt(argv, q + 1)) && MeaningO(o, e) == Some(v.b)
    decreases |argv| - wp, 4
  {
    hide Ops, NotOp, AndOp, OrOp, OpenOp, CloseOp, Lookup, LookupFrom, IsOperand, LexAt, ParseA, PrintA;
    hide MeaningA, ReadableA, ParseN, PrintN, MeaningN, ReadableN, ParseP, PrintP, MeaningP, ReadableP, Spans;
    hide ParseO;
    OrStep(o, spare, argv, wp);
    var (v, q) := ParseO(o, spare, argv, wp);
    var p := ParseA(o, spare, argv, wp).1;
    var a := BuildA(o, spare, argv, wp);
    if TokenAt(argv, p + 1) == Some(OrOp().text) {
      var rest := BuildO(o, spare, argv, p + 2);
      SpansParts(argv, wp, p, q, PrintA(a), PrintO(rest));
      e := Or(a, rest);
    } else {
      e := One(a);
    }
  }

  lemma {:induction false} BuildA(o: Oracle, spare: bool, argv: seq<string>, wp: nat) returns (a: AndExpr)
    requires wp <= |argv| && ParseA(o, spare, argv, wp).0.Value? && ParseA(o, spare, argv, wp).1 < |argv|
    ensures var (v, q) := ParseA(o, spare, argv, wp);
      && q < |argv| && Spans(argv, wp, q, PrintA(a))
      && ReadableA(a, TokenAt(argv, q + 1)) && MeaningA(o, a) == Some(v.b)
    decreases |argv| - wp, 3
  {
    hide Ops, NotOp, AndOp, OrOp, OpenOp, CloseOp, Lookup, LookupFrom, IsOperand, LexAt, ParseO, PrintO;
    hide MeaningO, ReadableO, ParseN, PrintN, MeaningN, ReadableN, ParseP, PrintP, MeaningP, ReadableP, Spans;
    hide ParseA;
    AndStep(o, spare, argv, wp);
    var (v, q) := ParseA(o, spare, argv, wp);
    var p := ParseN(o, spare, argv, wp).1;
    var n := BuildN(o, spare, argv, wp);
    if TokenAt(argv, p + 1) == Some(AndOp().text) {
      var rest := BuildA(o, spare, argv, p + 2);
      SpansParts(argv, wp, p, q, PrintN(n), PrintA(rest));
      a := And(n, rest);
    } else {
      a := AndOne(n);
    }
  }

  lemma {:induction false} BuildN(o: Oracle, spare: bool, argv: seq<string>, wp: nat) returns (n: NotExpr)
    requires wp <= |argv| && ParseN(o, spare, argv, wp).0.Value? && ParseN(o, spare, argv, wp).1 < |argv|
    ensures var (v, q) := ParseN(o, spare, argv, wp);
      && Spans(argv, wp, q, PrintN(n)) && ReadableN(n, TokenAt(argv, q + 1)) && MeaningN(o, n) == Some(v.b)
    decreases |argv| - wp, 2
  {
    hide Ops, NotOp, AndOp, OrOp, OpenOp, CloseOp, Lookup, LookupFrom, IsOperand, LexAt, ParseO, PrintO;
    hide MeaningO, ReadableO, ParseA, PrintA, MeaningA, ReadableA, ParseP, PrintP, MeaningP, ReadableP, ParseN, Spans;
    var (v, q) := ParseN(o, spare, argv, wp);
    NotStep(o, spare, argv, wp);
    if argv[wp] == NotOp().text {
      var m := BuildN(o, spare, argv, wp + 1);
      SpansOne(argv, wp, q, PrintN(m));
      n := Not(m);
    } else {
      var p := BuildP(o, spare, argv, wp);
      n := Prim(p);
    }
  }

  lemma SpansOne(argv: seq<string>, wp: nat, q: nat, toks: seq<string>)
    requires Spans(argv, wp + 1, q, toks)
    ensures Spans(argv, wp, q, [argv[wp]] + toks)
  {
    assert argv[wp..q + 1] == [argv[wp]] + argv[wp + 1..q + 1];
  }

  lemma SpansEnd(argv: seq<string>, wp: nat, q: nat, toks: seq<string>)
    requires Spans(argv, wp, q, toks) && q + 1 < |argv|
    ensures Spans(argv, wp, q + 1, toks + [argv[q + 1]]) && toks[0] == argv[wp]
  {
    assert argv[wp..q + 2] == argv[wp..q + 1] + [argv[q + 1]];
  }

  lemma {:induction false} BuildP(o: Oracle, spare: bool, argv: seq<string>, wp: nat) returns (p: Primary)
    requires wp < |argv| && ParseP(o, spare, argv, wp).0.Value? && argv[wp] != NotOp().text
    ensures var (v, q) := ParseP(o, spare, argv, wp);
      && Spans(argv, wp, q, PrintP(p)) && ReadableP(p, TokenAt(argv, q + 1)) && MeaningP(o, p) == Some(v.b)
    decreases |argv| - wp, 1
  {
    hide Ops, NotOp, AndOp, OrOp, OpenOp, CloseOp, Lookup, LookupFrom, IsOperand, LexAt, ParseP, ParseO, PrintO;
    hide MeaningO, ReadableO, ParseA, PrintA, MeaningA, ReadableA, ParseN, PrintN, MeaningN, ReadableN, Spans;
    hide TestUnary, TestBinary;
    if argv[wp] == OpenOp().text && wp + 1 < |argv| {
      GroupStep(o, spare, argv, wp);
      if argv[wp + 1] == CloseOp().text {
        p := Nothing;
        NothingSpans(argv, wp);
      } else {
        var e := BuildO(o, spare, argv, wp + 1);
        GroupSpans(argv, wp, ParseO(o, spare, argv, wp + 1).1, e);
        p := Group(e);
      }
    } else {
      p := BuildFlat(o, spare, argv, wp);
    }
  }

  lemma GroupSpans(argv: seq<string>, wp: nat, inner: nat, e: Expr)
    requires Spans(argv, wp + 1, inner, PrintO(e)) && inner + 1 < |argv|
    requires argv[wp] == OpenOp().text && argv[inner + 1] == CloseOp().text
    ensures Spans(argv, wp, inner + 1, PrintP(Group(e))) && PrintO(e)[0] == argv[wp + 1]
  {
    hide OpenOp, CloseOp, PrintO, Spans;
    SpansEnd(argv, wp + 1, inner, PrintO(e));
    SpansOne(argv, wp, inner + 1, PrintO(e) + [CloseOp().text]);
    assert [OpenOp().text] + (PrintO(e) + [CloseOp().text]) == PrintP(Group(e));
  }

  lemma NothingSpans(argv: seq<string>, wp: nat)
    requires wp + 1 < |argv| && argv[wp] == OpenOp().text && argv[wp + 1] == CloseOp().text
    ensures Spans(argv, wp, wp + 1, PrintP(Nothing))
  {
    hide OpenOp, CloseOp;
    assert argv[wp..wp + 2] == [argv[wp], argv[wp + 1]];
  }

  /** Operands with or without an operator. */
  lemma BuildFlat(o: Oracle, spare: bool, argv: seq<string>, wp: nat) returns (p: Primary)
    requires wp < |argv| && ParseP(o, spare, argv, wp).0.Value? && argv[wp] != NotOp().text
    requires argv[wp] == OpenOp().text ==> wp + 1 == |argv|
    ensures var (v, q) := ParseP(o, spare, argv, wp);
      && Spans(argv, wp, q, PrintP(p)) && ReadableP(p, TokenAt(argv, q + 1)) && MeaningP(o, p) == Some(v.b)
  {
    hide Ops, NotOp, AndOp, OrOp, OpenOp, CloseOp, Lookup, LookupFrom, ParseGroup, ReadableO, MeaningO;
    hide TestUnary, TestBinary;
    LexHere(argv, wp);
    LexNext(argv, wp);
    if IsKind(argv[wp], UNOP) && !IsOperand(argv, wp) {
      p := Unary(Lookup(argv[wp]).value, argv[wp + 1]);
      assert argv[wp..wp + 2] == PrintP(p);
    } else if wp + 1 < |argv| && IsKind(argv[wp + 1], BINOP) {
      p := Binary(argv[wp], Lookup(argv[wp + 1]).value, argv[wp + 2]);
      assert argv[wp..wp + 3] == PrintP(p);
    } else {
      p := Str(argv[wp]);
      assert argv[wp..wp + 1] == PrintP(p);
    }
  }

  // ---------------------------------------------------------------- the whole program

  /** The arguments as `main` evaluates them: under the name "[" the last one must be "]". */
  function Arguments(bracket: bool, args: seq<string>): Option<seq<string>> {
    if !bracket then Some(args)
    else if args == [] || args[|args| - 1] != "]" then None
    else Some(args[..|args| - 1])
  }

  // ---------------------------------------------------------------- the last expression is missing

  /** An expression that ends where another one ought to begin: with nothing at all, or behind -o, -a, "!"
      or an open parenthesis that is never closed. */
  datatype CutExpr = CutOne(a: CutAnd) | CutOr(l: AndExpr, rest: CutExpr)
  datatype CutAnd = CutAndOne(n: CutNot) | CutBoth(l: NotExpr, rest: CutAnd)
  datatype CutNot = Missing | Negated(n: CutNot) | Opened(e: CutExpr)

  function PrintCutO(c: CutExpr): seq<string> {
    match c
    case CutOne(a) => PrintCutA(a)
    case CutOr(l, rest) => PrintA(l) + [OrOp().text] + PrintCutO(rest)
  }

  function PrintCutA(c: CutAnd): seq<string> {
    match c
    case CutAndOne(n) => PrintCutN(n)
    case CutBoth(l, rest) => PrintN(l) + [AndOp().text] + PrintCutA(rest)
  }

  function PrintCutN(c: CutNot): seq<string> {
    match c
    case Missing => []
    case Negated(n) => [NotOp().text] + PrintCutN(n)
    case Opened(e) => [OpenOp().text] + PrintCutO(e)
  }

  /** The missing expression counts as false; an exit in what stands before it comes first. */
  function MeaningCutO(o: Oracle, c: CutExpr): Option<bool> {
    match c
    case CutOne(a) => MeaningCutA(o, a)
    case CutOr(l, rest) =>
      var left := MeaningA(o, l);
      if left.None? then None
      else
        var right := MeaningCutO(o, rest);
        if right.None? then None else Some(left.value || right.value)
  }

  function MeaningCutA(o: Oracle, c: CutAnd): Option<bool> {
    match c
    case CutAndOne(n) => MeaningCutN(o, n)
    case CutBoth(l, rest) =>
      var left := MeaningN(o, l);
      if left.None? then None
      else
        var right := MeaningCutA(o, rest);
        if right.None? then None else Some(left.value && right.value)
  }

  function MeaningCutN(o: Oracle, c: CutNot): Option<bool> {
    match c
    case Missing => Some(false)
    case Negated(n) =>
      var v := MeaningCutN(o, n);
      if v.None? then None else Some(!v.value)
    case Opened(e) => MeaningCutO(o, e)
  }

  predicate ReadableCutO(c: CutExpr) {
    match c
    case CutOne(a) => ReadableCutA(a)
    case CutOr(l, rest) => ReadableA(l, Some(OrOp().text)) && ReadableCutO(rest)
  }

  predicate ReadableCutA(c: CutAnd) {
    match c
    case CutAndOne(n) => ReadableCutN(n)
    case CutBoth(l, rest) => ReadableN(l, Some(AndOp().text)) && ReadableCutA(rest)
  }

  predicate ReadableCutN(c: CutNot) {
    match c
    case Missing => true
    case Negated(n) => ReadableCutN(n)
    case Opened(e) => ReadableCutO(e) && PrintCutO(e) != [] && PrintCutO(e)[0] != CloseOp().text
  }

  /** A parenthesis is still open. */
  predicate OpenO(c: CutExpr) {
    match c
    case CutOne(a) => OpenA(a)
    case CutOr(_, rest) => OpenO(rest)
  }

  predicate OpenA(c: CutAnd) {
    match c
    case CutAndOne(n) => OpenN(n)
    case CutBoth(_, rest) => OpenA(rest)
  }

  predicate OpenN(c: CutNot) {
    match c
    case Missing => false
    case Negated(n) => OpenN(n)
    case Opened(_) => true
  }

  /** The outcome of `oexpr` or `aexpr` when an expression is missing: they look behind the terminator. */
  predicate CutYields(spare: bool, r: Parsed, meaning: Option<bool>, open: bool, end: nat) {
    if meaning.None? then r.0 == Exit
    else if !spare then r.0 == Overrun
    else if open then r.0 == Exit
    else r == (Value(meaning.value), end)
  }

  /** `nexpr` only does so inside a parenthesis. */
  predicate CutYieldsN(spare: bool, r: Parsed, meaning: Option<bool>, open: bool, end: nat) {
    if meaning.Some? && !open then r == (Value(meaning.value), end) else CutYields(spare, r, meaning, open, end)
  }

  /** `toks` are the tokens from `wp` to the end. */
  predicate Remain(argv: seq<string>, wp: nat, toks: seq<string>) {
    wp <= |argv| && argv[wp..] == toks
  }

  lemma RemainParts(argv: seq<string>, wp: nat, left: seq<string>, mid: string, right: seq<string>)
    requires Remain(argv, wp, left + [mid] + right)
    ensures Stands(argv, wp, left, Some(mid)) && Remain(argv, wp + |left| + 1, right)
    ensures wp + |left| < |argv| && argv[wp + |left|] == mid
  {
    var all, k := left + [mid] + right, wp + |left|;
    assert argv[wp..][..|left|] == argv[wp..k] && argv[wp..][|left|] == argv[k];
    assert argv[wp..][|left| + 1..] == argv[k + 1..];
  }

  lemma {:induction false} ReadCutO(o: Oracle, spare: bool, argv: seq<string>, wp: nat, c: CutExpr)
    requires ReadableCutO(c) && Remain(argv, wp, PrintCutO(c))
    ensures CutYields(spare, ParseO(o, spare, argv, wp), MeaningCutO(o, c), OpenO(c), |argv|)
    decreases c, 3
  {
    hide Ops, NotOp, AndOp, OrOp, OpenOp, CloseOp, Lookup, LookupFrom, IsOperand, LexAt, ParseA, PrintA;
    hide MeaningA, ReadableA, ParseN, PrintN, MeaningN, ReadableN, ParseP, PrintP, MeaningP, ReadableP, Stands;
    hide Remain, ReadableCutA, PrintCutA, MeaningCutA, ParseO;
    RemainEnd(argv, wp, PrintCutO(c));
    OrStep(o, spare, argv, wp);
    match c
    case CutOne(a) => ReadCutA(o, spare, argv, wp, a);
    case CutOr(l, rest) =>
      var p := wp + |PrintA(l)|;
      RemainParts(argv, wp, PrintA(l), OrOp().text, PrintCutO(rest));
      ReadA(o, spare, argv, wp, l, Some(OrOp().text));
      ReadCutO(o, spare, argv, p + 1, rest);
  }

  lemma {:induction false} ReadCutA(o: Oracle, spare: bool, argv: seq<string>, wp: nat, c: CutAnd)
    requires ReadableCutA(c) && Remain(argv, wp, PrintCutA(c))
    ensures CutYields(spare, ParseA(o, spare, argv, wp), MeaningCutA(o, c), OpenA(c), |argv|)
    decreases c, 2
  {
    hide Ops, NotOp, AndOp, OrOp, OpenOp, CloseOp, Lookup, LookupFrom, IsOperand, LexAt, ParseO, PrintO;
    hide MeaningO, ReadableO, ParseN, PrintN, MeaningN, ReadableN, ParseP, PrintP, MeaningP, ReadableP, Stands;
    hide Remain, ReadableCutO, PrintCutO, MeaningCutO, ReadableCutN, PrintCutN, MeaningCutN, ParseA;
    RemainEnd(argv, wp, PrintCutA(c));
    AndStep(o, spare, argv, wp);
    match c
    case CutAndOne(n) => ReadCutN(o, spare, argv, wp, n);
    case CutBoth(l, rest) =>
      var p := wp + |PrintN(l)|;
      RemainParts(argv, wp, PrintN(l), AndOp().text, PrintCutA(rest));
      ReadN(o, spare, argv, wp, l, Some(AndOp().text));
      ReadCutA(o, spare, argv, p + 1, rest);
  }

  lemma {:induction false} ReadCutN(o: Oracle, spare: bool, argv: seq<string>, wp: nat, c: CutNot)
    requires ReadableCutN(c) && Remain(argv, wp, PrintCutN(c))
    ensures CutYieldsN(spare, ParseN(o, spare, argv, wp), MeaningCutN(o, c), OpenN(c), |argv|)
    decreases c, 1
  {
    hide Ops, NotOp, AndOp, OrOp, OpenOp, CloseOp, Lookup, LookupFrom, IsOperand, LexAt, ParseO, PrintO;
    hide MeaningO, ReadableO, ParseA, PrintA, MeaningA, ReadableA, ParseP, PrintP, MeaningP, ReadableP, ParseN, Stands;
    hide Remain, ReadableCutO, PrintCutO, MeaningCutO, ReadableCutA, PrintCutA, MeaningCutA;
    match c
    case Missing => NothingRemains(o, spare, argv, wp);
    case Negated(n) =>
      assert [] + [NotOp().text] + PrintCutN(n) == PrintCutN(c);
      RemainParts(argv, wp, [], NotOp().text, PrintCutN(n));
      NotStep(o, spare, argv, wp);
      ReadCutN(o, spare, argv, wp + 1, n);
    case Opened(e) =>
      assert [] + [OpenOp().text] + PrintCutO(e) == PrintCutN(c);
      RemainParts(argv, wp, [], OpenOp().text, PrintCutO(e));
      FirstRemains(argv, wp + 1, PrintCutO(e));
      ReadCutO(o, spare, argv, wp + 1, e);
      OpenedYields(o, spare, argv, wp, MeaningCutO(o, e), OpenO(e));
  }

  lemma RemainEnd(argv: seq<string>, wp: nat, toks: seq<string>)
    requires Remain(argv, wp, toks)
    ensures wp <= |argv|
  {
  }

  lemma FirstRemains(argv: seq<string>, wp: nat, toks: seq<string>)
    requires Remain(argv, wp, toks) && toks != []
    ensures wp < |argv| && argv[wp] == toks[0]
  {
  }

  lemma NothingRemains(o: Oracle, spare: bool, argv: seq<string>, wp: nat)
    requires Remain(argv, wp, [])
    ensures wp == |argv| && ParseN(o, spare, argv, wp) == (Value(false), |argv|)
  {
    hide Ops, NotOp, AndOp, OrOp, OpenOp, CloseOp, Lookup, LookupFrom, ParseO;
    assert |argv[wp..]| == |argv| - wp;
  }

  /** An open parenthesis in front of an expression that is cut short. */
  lemma OpenedYields(o: Oracle, spare: bool, argv: seq<string>, wp: nat, meaning: Option<bool>, open: bool)
    requires wp + 1 < |argv| && argv[wp] == OpenOp().text && argv[wp + 1] != CloseOp().text
    requires CutYields(spare, ParseO(o, spare, argv, wp + 1), meaning, open, |argv|)
    ensures CutYields(spare, ParseN(o, spare, argv, wp), meaning, true, |argv|)
  {
    hide Ops, NotOp, AndOp, OrOp, OpenOp, CloseOp, Lookup, LookupFrom, LexAt, ParseO, ParseP;
    LexHere(argv, wp);
    TextsDiffer();
    GroupStep(o, spare, argv, wp);
  }

  /** The parse has come to the terminator where an expression ought to begin. */
  predicate Reaches(argv: seq<string>, r: Parsed) {
    r.0.Overrun? || (r.0.Value? && r.1 == |argv|)
  }

  predicate ValueOf(r: Parsed, meaning: Option<bool>, open: bool) {
    meaning.Some? && (r.0.Value? ==> !open && meaning == Some(r.0.b))
  }

  lemma RemainJoin(argv: seq<string>, wp: nat, p: nat, left: seq<string>, right: seq<string>)
    requires (wp == p + 1 && left == []) || Spans(argv, wp, p, left)
    requires p + 1 < |argv| && Remain(argv, p + 2, right)
    ensures Remain(argv, wp, left + [argv[p + 1]] + right)
  {
    assert wp <= p ==> argv[wp..p + 1] == left;
    assert argv[wp..] == argv[wp..p + 1] + [argv[p + 1]] + argv[p + 2..];
  }

  lemma {:induction false} BuildCutO(o: Oracle, spare: bool, argv: seq<string>, wp: nat) returns (c: CutExpr)
    requires wp <= |argv| && Reaches(argv, ParseO(o, spare, argv, wp))
    ensures Remain(argv, wp, PrintCutO(c)) && ReadableCutO(c)
    ensures ValueOf(ParseO(o, spare, argv, wp), MeaningCutO(o, c), OpenO(c))
    decreases |argv| - wp, 4
  {
    hide Ops, NotOp, AndOp, OrOp, OpenOp, CloseOp, Lookup, LookupFrom, IsOperand, LexAt, ParseA, PrintA;
    hide MeaningA, ReadableA, ParseN, PrintN, MeaningN, ReadableN, ParseP, PrintP, MeaningP, ReadableP, Spans;
    hide Remain, ReadableCutA, PrintCutA, MeaningCutA, ParseO;
    OrStep(o, spare, argv, wp);
    var (left, p) := ParseA(o, spare, argv, wp);
    if left.Value? && p < |argv| {
      var l := BuildA(o, spare, argv, wp);
      var rest := BuildCutO(o, spare, argv, p + 2);
      RemainJoin(argv, wp, p, PrintA(l), PrintCutO(rest));
      c := CutOr(l, rest);
    } else {
      var a := BuildCutA(o, spare, argv, wp);
      c := CutOne(a);
    }
  }

  lemma {:induction false} BuildCutA(o: Oracle, spare: bool, argv: seq<string>, wp: nat) returns (c: CutAnd)
    requires wp <= |argv| && Reaches(argv, ParseA(o, spare, argv, wp))
    ensures Remain(argv, wp, PrintCutA(c)) && ReadableCutA(c)
    ensures ValueOf(ParseA(o, spare, argv, wp), MeaningCutA(o, c), OpenA(c))
    decreases |argv| - wp, 3
  {
    hide Ops, NotOp, AndOp, OrOp, OpenOp, CloseOp, Lookup, LookupFrom, IsOperand, LexAt, ParseO, PrintO;
    hide MeaningO, ReadableO, ParseN, PrintN, MeaningN, ReadableN, ParseP, PrintP, MeaningP, ReadableP, Spans;
    hide Remain, ReadableCutO, PrintCutO, MeaningCutO, ReadableCutN, PrintCutN, MeaningCutN, ParseA;
    AndStep(o, spare, argv, wp);
    var (left, p) := ParseN(o, spare, argv, wp);
    if left.Value? && p < |argv| {
      var l := BuildN(o, spare, argv, wp);
      var rest := BuildCutA(o, spare, argv, p + 2);
      RemainJoin(argv, wp, p, PrintN(l), PrintCutA(rest));
      c := CutBoth(l, rest);
    } else {
      var n := BuildCutN(o, spare, argv, wp);
      c := CutAndOne(n);
    }
  }

  lemma {:induction false} BuildCutN(o: Oracle, spare: bool, argv: seq<string>, wp: nat) returns (c: CutNot)
    requires wp <= |argv| && Reaches(argv, ParseN(o, spare, argv, wp))
    ensures Remain(argv, wp, PrintCutN(c)) && ReadableCutN(c)
    ensures ValueOf(ParseN(o, spare, argv, wp), MeaningCutN(o, c), OpenN(c))
    decreases |argv| - wp, 2
  {
    hide Ops, NotOp, AndOp, OrOp, OpenOp, CloseOp, Lookup, LookupFrom, IsOperand, LexAt, ParseO, PrintO;
    hide MeaningO, ReadableO, ParseA, PrintA, MeaningA, ReadableA, ParseP, PrintP, MeaningP, ReadableP, ParseN, Spans;
    hide Remain, ReadableCutO, PrintCutO, MeaningCutO, ReadableCutA, PrintCutA, MeaningCutA;
    if wp == |argv| {
      c := Missing;
      NoneRemain(argv);
      NothingRemains(o, spare, argv, wp);
    } else {
      NotStep(o, spare, argv, wp);
      if argv[wp] == NotOp().text {
        var n := BuildCutN(o, spare, argv, wp + 1);
        c := Negated(n);
        RemainOne(argv, wp, PrintCutN(n));
      } else {
        OpenReaches(o, spare, argv, wp);
        var e := BuildCutO(o, spare, argv, wp + 1);
        c := Opened(e);
        RemainOne(argv, wp, PrintCutO(e));
      }
    }
  }

  lemma NoneRemain(argv: seq<string>)
    ensures Remain(argv, |argv|, [])
  {
  }

  lemma RemainOne(argv: seq<string>, wp: nat, toks: seq<string>)
    requires wp < |argv| && Remain(argv, wp + 1, toks)
    ensures Remain(argv, wp, [argv[wp]] + toks)
    ensures wp + 1 < |argv| ==> toks != [] && toks[0] == argv[wp + 1]
  {
    assert argv[wp..] == [argv[wp]] + argv[wp + 1..];
  }

  /** `primary` only comes to the terminator inside a parenthesis. */
  lemma OpenReaches(o: Oracle, spare: bool, argv: seq<string>, wp: nat)
    requires wp < |argv| && argv[wp] != NotOp().text && Reaches(argv, ParseP(o, spare, argv, wp))
    ensures wp + 1 < |argv| && argv[wp] == OpenOp().text && argv[wp + 1] != CloseOp().text
    ensures ParseP(o, spare, argv, wp).0.Overrun? && Reaches(argv, ParseO(o, spare, argv, wp + 1))
  {
    hide Ops, NotOp, AndOp, OrOp, OpenOp, CloseOp, Lookup, LookupFrom, IsOperand, LexAt, ParseO, ParseP;
    if wp + 1 < |argv| && argv[wp] == OpenOp().text {
      GroupReaches(o, spare, argv, wp);
    } else {
      FlatStops(o, spare, argv, wp);
    }
  }

  lemma GroupReaches(o: Oracle, spare: bool, argv: seq<string>, wp: nat)
    requires wp + 1 < |argv| && argv[wp] == OpenOp().text && Reaches(argv, ParseP(o, spare, argv, wp))
    ensures argv[wp + 1] != CloseOp().text && ParseP(o, spare, argv, wp).0.Overrun?
    ensures Reaches(argv, ParseO(o, spare, argv, wp + 1))
  {
    hide Ops, NotOp, AndOp, OrOp, OpenOp, CloseOp, Lookup, LookupFrom, IsOperand, LexAt, ParseO, ParseP;
    GroupStep(o, spare, argv, wp);
  }

  lemma FlatStops(o: Oracle, spare: bool, argv: seq<string>, wp: nat)
    requires wp < |argv| && (argv[wp] == OpenOp().text ==> wp + 1 == |argv|)
    ensures !Reaches(argv, ParseP(o, spare, argv, wp))
  {
    hide Ops, NotOp, AndOp, OrOp, OpenOp, CloseOp, Lookup, LookupFrom, LexAt, IsOperand, ParseGroup, ParseFlat;
    LexHere(argv, wp);
  }

  /** Where an expression that is cut short may end. */
  predicate EndsOpenly(toks: seq<string>) {
    toks == [] || var last := toks[|toks| - 1];
      last == NotOp().text || last == AndOp().text || last == OrOp().text
  }

  lemma {:induction false} CutEndO(c: CutExpr)
    requires ReadableCutO(c)
    ensures EndsOpenly(PrintCutO(c))
    decreases c, 3
  {
    hide PrintA, PrintCutA, ReadableA, ReadableCutA, OrOp, AndOp, NotOp;
    match c
    case CutOne(a) => CutEndA(a);
    case CutOr(_, rest) => CutEndO(rest);
  }

  lemma {:induction false} CutEndA(c: CutAnd)
    requires ReadableCutA(c)
    ensures EndsOpenly(PrintCutA(c))
    decreases c, 2
  {
    hide PrintN, PrintCutN, ReadableN, ReadableCutN, OrOp, AndOp, NotOp;
    match c
    case CutAndOne(n) => CutEndN(n);
    case CutBoth(_, rest) => CutEndA(rest);
  }

  lemma {:induction false} CutEndN(c: CutNot)
    requires ReadableCutN(c)
    ensures EndsOpenly(PrintCutN(c))
    decreases c, 1
  {
    hide PrintCutO, ReadableCutO, OrOp, AndOp, NotOp, OpenOp, CloseOp;
    match c
    case Missing =>
    case Negated(n) => CutEndN(n);
    case Opened(e) => CutEndO(e);
  }

  // ---------------------------------------------------------------- what the program answers

  /** `main`: the value, unless tokens are left over. */
  function Main(o: Oracle, spare: bool, argv: seq<string>): Outcome {
    var (v, p) := ParseO(o, spare, argv, 0);
    if v.Value? && p + 1 < |argv| then Exit else v
  }

  /** The tokens are a readable expression that means `v`. */
  ghost predicate Denotes(o: Oracle, argv: seq<string>, v: bool) {
    exists e: Expr :: PrintO(e) == argv && ReadableO(e, None) && MeaningO(o, e) == Some(v)
  }

  /** The tokens are a readable expression whose last part is missing and which means `v` without it. */
  ghost predicate CutDenotes(o: Oracle, argv: seq<string>, open: bool, v: bool) {
    exists c: CutExpr ::
      PrintCutO(c) == argv && ReadableCutO(c) && OpenO(c) == open && MeaningCutO(o, c) == Some(v)
  }

  lemma CutForms(o: Oracle, argv: seq<string>, c: CutExpr)
    requires PrintCutO(c) == argv && ReadableCutO(c) && MeaningCutO(o, c).Some?
    ensures CutDenotes(o, argv, OpenO(c), MeaningCutO(o, c).value)
  {
  }

  lemma CutResult(o: Oracle, spare: bool, argv: seq<string>, open: bool, v: bool)
    requires CutDenotes(o, argv, open, v)
    ensures Main(o, spare, argv) == if !spare then Overrun else if open then Exit else Value(v)
  {
    hide Ops, NotOp, AndOp, OrOp, OpenOp, CloseOp, Lookup, LookupFrom, IsOperand, LexAt, ParseO, PrintO;
    hide MeaningO, ReadableO, ParseA, PrintA, MeaningA, ReadableA, ParseN, PrintN, MeaningN, ReadableN, ParseP;
    hide PrintP, MeaningP, ReadableP, ReadableCutO, PrintCutO, MeaningCutO, OpenO;
    var c: CutExpr :| PrintCutO(c) == argv && ReadableCutO(c) && OpenO(c) == open && MeaningCutO(o, c) == Some(v);
    assert argv[0..] == argv;
    ReadCutO(o, spare, argv, 0, c);
  }

  /** The program has value `v` exactly for the printed forms of the readable expressions that mean `v`, and,
      under the name "[", of those that are cut short outside of parentheses. */
  lemma AcceptsExactly(o: Oracle, spare: bool, argv: seq<string>, v: bool)
    ensures Main(o, spare, argv) == Value(v) <==> Denotes(o, argv, v) || (spare && CutDenotes(o, argv, false, v))
  {
    hide Ops, NotOp, AndOp, OrOp, OpenOp, CloseOp, Lookup, LookupFrom, IsOperand, LexAt, ParseO, PrintO;
    hide MeaningO, ReadableO, ParseA, PrintA, MeaningA, ReadableA, ParseN, PrintN, MeaningN, ReadableN, ParseP;
    hide PrintP, MeaningP, ReadableP, ReadableCutO, PrintCutO, MeaningCutO, OpenO;
    if Main(o, spare, argv) == Value(v) {
      var q := ParseO(o, spare, argv, 0).1;
      if q < |argv| {
        var e := BuildO(o, spare, argv, 0);
        assert argv[0..q + 1] == argv;
        assert PrintO(e) == argv;
      } else {
        var c := BuildCutO(o, spare, argv, 0);
        assert argv[0..] == argv;
        CutForms(o, argv, c);
        CutResult(o, spare, argv, OpenO(c), MeaningCutO(o, c).value);
      }
    }
    if Denotes(o, argv, v) {
      var e: Expr :| PrintO(e) == argv && ReadableO(e, None) && MeaningO(o, e) == Some(v);
      ReadableNeverOverruns(o, spare, e);
    }
    if spare && CutDenotes(o, argv, false, v) {
      CutResult(o, spare, argv, false, v);
    }
  }

  /** The program reads past its last terminator exactly when it has only one, which is so under the name
      "test", and the arguments are a readable expression whose last part is missing. */
  lemma OverrunsExactly(o: Oracle, spare: bool, argv: seq<string>)
    ensures Main(o, spare, argv) == Overrun <==> !spare && exists open, v :: CutDenotes(o, argv, open, v)
    ensures Main(o, spare, argv) == Overrun ==> EndsOpenly(argv)
  {
    hide Ops, NotOp, AndOp, OrOp, OpenOp, CloseOp, Lookup, LookupFrom, IsOperand, LexAt, ParseO, PrintO;
    hide MeaningO, ReadableO, ParseA, PrintA, MeaningA, ReadableA, ParseN, PrintN, MeaningN, ReadableN, ParseP;
    hide PrintP, MeaningP, ReadableP, ReadableCutO, PrintCutO, MeaningCutO, OpenO;
    if Main(o, spare, argv) == Overrun {
      var c := BuildCutO(o, spare, argv, 0);
      CutEndO(c);
      assert argv[0..] == argv;
      assert PrintCutO(c) == argv;
      CutForms(o, argv, c);
      CutResult(o, spare, argv, OpenO(c), MeaningCutO(o, c).value);
    }
    forall open, v | !spare && CutDenotes(o, argv, open, v) ensures Main(o, spare, argv) == Overrun {
      CutResult(o, spare, argv, open, v);
    }
  }

  /** A readable expression never makes the program read past the terminator or report an error of its own. */
  lemma ReadableNeverOverruns(o: Oracle, spare: bool, e: Expr)
    requires ReadableO(e, None)
    ensures Main(o, spare, PrintO(e)) == FromOracle(MeaningO(o, e))
  {
    hide Ops, NotOp, AndOp, OrOp, OpenOp, CloseOp, Lookup, LookupFrom, IsOperand, LexAt, ParseO, PrintO;
    hide MeaningO, ReadableO, ParseA, PrintA, MeaningA, ReadableA, ParseN, PrintN, MeaningN, ReadableN, ParseP;
    hide PrintP, MeaningP, ReadableP;
    var argv := PrintO(e);
    assert argv[0..|argv|] == argv;
    ReadO(o, spare, argv, 0, e, None);
  }

  /** Operands that are not spelled like operators make any expression readable. */
  predicate OrdinaryO(e: Expr) {
    match e
    case One(a) => OrdinaryA(a)
    case Or(a, rest) => OrdinaryA(a) && OrdinaryO(rest)
  }

  predicate OrdinaryA(a: AndExpr) {
    match a
    case AndOne(n) => OrdinaryN(n)
    case And(n, rest) => OrdinaryN(n) && OrdinaryA(rest)
  }

  predicate OrdinaryN(n: NotExpr) {
    match n
    case Prim(p) => OrdinaryP(p)
    case Not(m) => OrdinaryN(m)
  }

  predicate OrdinaryP(p: Primary) {
    match p
    case Str(s) => Lookup(s).None?
    case Unary(op, s) => op in Ops() && op.kind == UNOP && Lookup(s).None?
    case Binary(s, op, t) => op in Ops() && op.kind == BINOP && Lookup(s).None? && Lookup(t).None?
    case Group(e) => OrdinaryO(e)
    case Nothing => true
  }

  /** No binary operator follows, and neither -a nor -o does at a level that would read on. */
  predicate Ends(after: Option<string>) {
    after.Some? ==> !IsKind(after.value, BINOP)
  }

  lemma {:induction false} OrdinaryFirst(e: Expr)
    requires OrdinaryO(e)
    ensures PrintO(e)[0] != CloseOp().text
    decreases e
  {
    OrdinaryFirstA(e.a);
  }

  lemma {:induction false} OrdinaryFirstA(a: AndExpr)
    requires OrdinaryA(a)
    ensures PrintA(a)[0] != CloseOp().text
    decreases a
  {
    OrdinaryFirstN(a.n);
  }

  lemma OrdinaryFirstN(n: NotExpr)
    requires OrdinaryN(n)
    ensures PrintN(n)[0] != CloseOp().text
  {
    hide Ops, NotOp, AndOp, OrOp, OpenOp, CloseOp, Lookup, LookupFrom;
    TextsDiffer();
    LookupFacts();
    if n.Prim? && n.p.Unary? {
      KindOf(n.p.op);
      TableFacts(n.p.op);
    }
  }

  lemma {:induction false} OrdinaryReadableO(e: Expr, after: Option<string>)
    requires OrdinaryO(e) && Ends(after) && after != Some(OrOp().text) && after != Some(AndOp().text)
    ensures ReadableO(e, after)
    decreases e
  {
    hide Ops, NotOp, AndOp, OrOp, OpenOp, CloseOp, Lookup, LookupFrom, OrdinaryA, ReadableA;
    ConnectivesEnd();
    TextsDiffer();
    match e
    case One(a) => OrdinaryReadableA(a, after);
    case Or(a, rest) =>
      OrdinaryReadableA(a, Some(OrOp().text));
      OrdinaryReadableO(rest, after);
  }

  lemma {:induction false} OrdinaryReadableA(a: AndExpr, after: Option<string>)
    requires OrdinaryA(a) && Ends(after) && after != Some(AndOp().text)
    ensures ReadableA(a, after)
    decreases a
  {
    hide Ops, NotOp, AndOp, OrOp, OpenOp, CloseOp, Lookup, LookupFrom, OrdinaryN, ReadableN;
    ConnectivesEnd();
    match a
    case AndOne(n) => OrdinaryReadableN(n, after);
    case And(n, rest) =>
      OrdinaryReadableN(n, Some(AndOp().text));
      OrdinaryReadableA(rest, after);
  }

  lemma ConnectivesEnd()
    ensures Ends(Some(OrOp().text)) && Ends(Some(AndOp().text)) && Ends(Some(CloseOp().text))
  {
    hide Ops, Lookup, LookupFrom;
    LookupFacts();
  }

  lemma {:induction false} OrdinaryReadableN(n: NotExpr, after: Option<string>)
    requires OrdinaryN(n) && Ends(after)
    ensures ReadableN(n, after)
    decreases n
  {
    hide Ops, NotOp, AndOp, OrOp, OpenOp, CloseOp, Lookup, LookupFrom, OrdinaryO, ReadableO, PrintO;
    match n
    case Not(m) => OrdinaryReadableN(m, after);
    case Prim(p) =>
      LookupFacts();
      if p.Group? {
        ConnectivesEnd();
        TextsDiffer();
        OrdinaryFirst(p.e);
        OrdinaryReadableO(p.e, Some(CloseOp().text));
      }
  }

  /** Whatever such an expression means is what the program answers. */
  lemma OrdinaryReadsBack(o: Oracle, spare: bool, e: Expr)
    requires OrdinaryO(e)
    ensures Main(o, spare, PrintO(e)) == FromOracle(MeaningO(o, e))
  {
    OrdinaryReadableO(e, None);
    ReadableNeverOverruns(o, spare, e);
  }

  /** Without any expression, which the manual allows, `test` reads past the terminator and `[ ]` is false;
      "!" alone reads past it or is true, and an open parenthesis before it does so or is an error. */
  lemma MissingExpressions(o: Oracle, spare: bool)
    ensures Main(o, spare, []) == if spare then Value(false) else Overrun
    ensures Main(o, spare, ["!"]) == if spare then Value(true) else Overrun
    ensures Main(o, spare, ["(", "!"]) == if spare then Exit else Overrun
  {
    hide Main, CutDenotes;
    NothingAtAll(o);
    NegationAlone(o);
    NegationOpened(o);
    CutResult(o, spare, [], false, false);
    CutResult(o, spare, ["!"], false, true);
    CutResult(o, spare, ["(", "!"], true, true);
  }

  lemma NothingAtAll(o: Oracle)
    ensures CutDenotes(o, [], false, false)
  {
    var c := CutOne(CutAndOne(Missing));
    assert MeaningCutA(o, c.a) == Some(false);
    CutForms(o, [], c);
  }

  lemma NegationMeans(o: Oracle, c: CutExpr)
    requires c == CutOne(CutAndOne(Negated(Missing)))
    ensures ReadableCutO(c) && PrintCutO(c) == ["!"] && !OpenO(c) && MeaningCutO(o, c) == Some(true)
  {
    assert ReadableCutN(c.a.n) && PrintCutN(c.a.n) == ["!"] && !OpenN(c.a.n) && MeaningCutN(o, c.a.n) == Some(true);
  }

  lemma NegationAlone(o: Oracle)
    ensures CutDenotes(o, ["!"], false, true)
  {
    var c := CutOne(CutAndOne(Negated(Missing)));
    NegationMeans(o, c);
    CutForms(o, ["!"], c);
  }

  lemma NegationOpened(o: Oracle)
    ensures CutDenotes(o, ["(", "!"], true, true)
  {
    var not := CutOne(CutAndOne(Negated(Missing)));
    NegationMeans(o, not);
    var c := Opened(not);
    assert ReadableCutN(c) && PrintCutN(c) == ["(", "!"] && OpenN(c) && MeaningCutN(o, c) == Some(true);
    CutForms(o, ["(", "!"], CutOne(CutAndOne(c)));
  }

  // ---------------------------------------------------------------- the program itself

  /** The global cursor `t_wp` and the entry `t_wp_op` found by the last lexing. */
  class Evaluator {
    const argv: seq<string>
    const oracle: Oracle
    /** Does a second terminator follow the first? */
    const spare: bool
    var wp: nat
    var wpOp: Option<Op>

    constructor (oracle: Oracle, spare: bool, argv: seq<string>)
      ensures this.argv == argv && this.oracle == oracle && this.spare == spare && wp == 0
    {
      this.oracle, this.spare, this.argv, wp, wpOp := oracle, spare, argv, 0, None;
    }

    /** The cursor is on a token, or on the terminator, and it has just been lexed as `n`. */
    ghost predicate At(n: Num)
      reads this
    {
      wp <= |argv| && n == LexAt(argv, wp, wp).num && wpOp == LexAt(argv, wp, wp).op
    }

    /** The outcome is that of the specification, and so is the cursor, unless the program exits. */
    ghost predicate Did(r: Outcome, spec: Parsed)
      reads this
    {
      r == spec.0 && (r.Value? ==> wp == spec.1)
    }

    /** `isoperand`. */
    method IsOperandHere() returns (r: bool)
      requires wp < |argv|
      ensures r == IsOperand(argv, wp)
    {
      hide Ops;
      if wp + 1 == |argv| {
        return true;
      }
      if wp + 2 == |argv| {
        return false;
      }
      var i: nat := 0;
      while i < |Ops()|
        invariant i <= |Ops()| && LookupFrom(argv[wp + 1], i) == Lookup(argv[wp + 1])
      {
        if Ops()[i].text == argv[wp + 1] {
          return Ops()[i].kind == BINOP && argv[wp + 2] != CloseOp().text;
        }
        i := i + 1;
      }
      return false;
    }

    /** `t_lex` of the token at `q`. */
    method TLex(q: nat) returns (n: Num)
      requires wp <= q <= wp + 1 && q <= |argv|
      modifies `wpOp
      ensures n == LexAt(argv, wp, q).num && wpOp == LexAt(argv, wp, q).op
    {
      hide Ops;
      wpOp := None;
      if q == |argv| {
        return EOI;
      }
      var i: nat := 0;
      while i < |Ops()|
        invariant i <= |Ops()| && LookupFrom(argv[q], i) == Lookup(argv[q]) && wpOp == None
      {
        var op := Ops()[i];
        if op.text == argv[q] {
          var operand := false;
          if op.kind == UNOP {
            operand := IsOperandHere();
          }
          if operand || (op.num == LPAREN && wp + 1 == |argv|) {
            break;
          }
          wpOp := Some(op);
          return op.num;
        }
        i := i + 1;
      }
      return OPERAND;
    }

    /** `oexpr`. */
    method OExpr(n: Num) returns (r: Outcome)
      requires At(n)
      modifies this
      ensures Did(r, old(ParseO(oracle, spare, argv, wp)))
      decreases |argv| - wp, 4
    {
      hide Ops, NotOp, AndOp, OrOp, OpenOp, CloseOp, Lookup, LookupFrom, LexAt, ParseO, ParseA;
      OrStep(oracle, spare, argv, wp);
      r := AExpr(n);
      if !r.Value? {
        return;
      }
      if wp == |argv| {
        return if spare then r else Overrun;
      }
      wp := wp + 1;
      var next := TLex(wp);
      FollowedBy(argv, wp);
      if next == BOR {
        TokenPresent(argv, wp);
        wp := wp + 1;
        var m := TLex(wp);
        var right := OExpr(m);
        return if right.Value? then Value(right.b || r.b) else right;
      }
      wp := wp - 1;
    }

    /** `aexpr`. */
    method AExpr(n: Num) returns (r: Outcome)
      requires At(n)
      modifies this
      ensures Did(r, old(ParseA(oracle, spare, argv, wp)))
      decreases |argv| - wp, 3
    {
      hide Ops, NotOp, AndOp, OrOp, OpenOp, CloseOp, Lookup, LookupFrom, LexAt, ParseA, ParseN;
      AndStep(oracle, spare, argv, wp);
      r := NExpr(n);
      if !r.Value? {
        return;
      }
      if wp == |argv| {
        return if spare then r else Overrun;
      }
      wp := wp + 1;
      var next := TLex(wp);
      FollowedBy(argv, wp);
      if next == BAND {
        TokenPresent(argv, wp);
        wp := wp + 1;
        var m := TLex(wp);
        var right := AExpr(m);
        return if right.Value? then Value(right.b && r.b) else right;
      }
      wp := wp - 1;
    }

    /** `nexpr`. */
    method NExpr(n: Num) returns (r: Outcome)
      requires At(n)
      modifies this
      ensures Did(r, old(ParseN(oracle, spare, argv, wp)))
      decreases |argv| - wp, 2
    {
      hide Ops, NotOp, AndOp, OrOp, OpenOp, CloseOp, Lookup, LookupFrom, LexAt, ParseO, ParseA, ParseP;
      TokenPresent(argv, wp);
      if n == UNOT {
        wp := wp + 1;
        var m := TLex(wp);
        r := NExpr(m);
        return if r.Value? then Value(!r.b) else r;
      }
      r := PrimaryExpr(n);
    }

    /** `primary`. */
    method PrimaryExpr(n: Num) returns (r: Outcome)
      requires At(n)
      modifies this
      ensures Did(r, old(ParseP(oracle, spare, argv, wp)))
      decreases |argv| - wp, 1
    {
      hide Ops, NotOp, AndOp, OrOp, OpenOp, CloseOp, Lookup, LookupFrom, LexAt, ParseGroup, ParseFlat;
      TokenPresent(argv, wp);
      if n == EOI {
        return Value(false);
      }
      if n == LPAREN {
        r := Parenthesised();
      } else {
        r := Operands(n);
      }
    }

    /** `primary` on anything else. */
    method Operands(n: Num) returns (r: Outcome)
      requires At(n) && wp < |argv|
      modifies this
      ensures Did(r, old(ParseFlat(oracle, argv, wp)))
    {
      hide Ops, NotOp, AndOp, OrOp, OpenOp, CloseOp, Lookup, LookupFrom, LexAt, TestUnary, ParseBinop;
      if wpOp.Some? && wpOp.value.kind == UNOP {
        wp := wp + 1;
        return if wp == |argv| then Exit else FromOracle(TestUnary(oracle, n, argv[wp]));
      }
      var _ := TLex(wp + 1);
      if wpOp.Some? && wpOp.value.kind == BINOP {
        r := BinaryExpr(wpOp.value);
        return;
      }
      return Value(|argv[wp]| > 0);
    }

    /** `primary` on an open parenthesis. */
    method Parenthesised() returns (r: Outcome)
      requires At(LPAREN) && wp < |argv|
      modifies this
      ensures Did(r, old(ParseGroup(oracle, spare, argv, wp)))
      decreases |argv| - wp, 0
    {
      hide Ops, NotOp, AndOp, OrOp, OpenOp, CloseOp, Lookup, LookupFrom, LexAt, ParseO;
      wp := wp + 1;
      var nn := TLex(wp);
      if nn == RPAREN {
        return Value(false);
      }
      r := OExpr(nn);
      if !r.Value? {
        return;
      }
      if wp == |argv| {
        return if spare then Exit else Overrun;
      }
      wp := wp + 1;
      var close := TLex(wp);
      return if close == RPAREN then r else Exit;
    }

    /** `binop`: the operator behind the cursor is lexed once more, now with the cursor on it. */
    method BinaryExpr(ghost op: Op) returns (r: Outcome)
      requires wp + 1 < |argv| && Lookup(argv[wp + 1]) == Some(op) && op.kind == BINOP
      modifies this
      ensures Did(r, old(ParseBinop(oracle, argv, wp, op)))
    {
      hide Ops, OpenOp, Lookup, LookupFrom, IsOperand, TestBinary;
      var left := argv[wp];
      wp := wp + 1;
      SpelledLike(argv[wp]);
      var _ := TLex(wp);
      var found := wpOp;
      assert found == Some(op);
      wp := wp + 1;
      if wp == |argv| {
        return Exit;
      }
      return FromOracle(TestBinary(oracle, found.value.num, left, argv[wp]));
    }
  }

  /** A lexed operator is a token, not the terminator. */
  lemma TokenPresent(argv: seq<string>, q: nat)
    requires q <= |argv|
    ensures LexAt(argv, q, q).num == EOI <==> q == |argv|
  {
    hide Ops, NotOp, AndOp, OrOp, OpenOp, CloseOp, Lookup, LookupFrom, IsOperand;
    if q < |argv| {
      SpelledLike(argv[q]);
    }
  }

  /** `main`, with the exit status: 0 for true, 1 for false, 2 for an error.  Under the name "[" the last
      argument gives way to a second terminator.  `overrun` tells that the program has read past the only
      terminator, after which nothing is known. */
  method Test(oracle: Oracle, bracket: bool, args: seq<string>) returns (status: int, overrun: bool)
    ensures Arguments(bracket, args).None? ==> status == 2 && !overrun
    ensures Arguments(bracket, args).Some? ==>
      match Main(oracle, bracket, Arguments(bracket, args).value)
      case Value(v) => status == (if v then 0 else 1) && !overrun
      case Exit => status == 2 && !overrun
      case Overrun => overrun
    ensures overrun ==> !bracket
  {
    hide Ops, NotOp, AndOp, OrOp, OpenOp, CloseOp, Lookup, LookupFrom, LexAt, ParseO;
    var argv := args;
    if bracket {
      if args == [] || args[|args| - 1] != "]" {
        return 2, false;
      }
      argv := args[..|args| - 1];
    }
    var e := new Evaluator(oracle, bracket, argv);
    var n := e.TLex(0);
    var r := e.OExpr(n);
    match r
    case Exit => return 2, false;
    case Overrun =>
      OverrunsExactly(oracle, bracket, argv);
      return 2, true;
    case Value(v) =>
      if e.wp + 1 < |argv| {
        return 2, false;
      }
      return if v then 0 else 1, false;
  }
}
