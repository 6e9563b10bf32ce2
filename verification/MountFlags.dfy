/** `getmntopts`: the flags that a list of options sets and clears, and why rewriting a list keeps them. */
module MountFlags {
  import opened MountOpts
  import opened MountUpdate

  datatype MntOpt = MntOpt(name: string, inverse: bool, flag: bv32, alt: bool)
  datatype Flags = Flags(main: bv32, alt: bv32)

  function Lower(c: char): char {
    if 'A' <= c <= 'Z' then c - 'A' + 'a' else c
  }

  /** `strncasecmp(opt, name, strlen(name)) == 0`: what follows the name in the option does not matter. */
  predicate Matches(name: string, opt: string) {
    |name| <= |opt| && forall i :: 0 <= i < |name| ==> Lower(name[i]) == Lower(opt[i])
  }

  /** An assignment is cut off behind its equals sign. */
  function Cut(o: string): string {
    if o == "" then "" else if o[0] == '=' then "=" else [o[0]] + Cut(o[1..])
  }

  /** What is looked up for a token. */
  function Body(o: string): string {
    Cut(if StartsWithNo(o) then o[2..] else o)
  }

  /** The first entry from `k` on that matches, or the end of the table. */
  function Entry(table: seq<MntOpt>, opt: string, k: nat): (e: nat)
    requires k <= |table|
    ensures k <= e <= |table|
    ensures e < |table| ==> Matches(table[e].name, opt)
    decreases |table| - k
  {
    if k == |table| || Matches(table[k].name, opt) then k else Entry(table, opt, k + 1)
  }

  predicate Recognised(table: seq<MntOpt>, o: string) {
    Entry(table, Body(o), 0) < |table|
  }

  function PutWord(x: bv32, flag: bv32, on: bool): bv32 {
    if on then x | flag else x & !flag
  }

  function Put(f: Flags, m: MntOpt, on: bool): Flags {
    if m.alt then f.(alt := PutWord(f.alt, m.flag, on)) else f.(main := PutWord(f.main, m.flag, on))
  }

  /** One token: its entry's flag is set or cleared; an unknown one changes nothing. */
  function Effect(table: seq<MntOpt>, f: Flags, o: string): Flags {
    var e := Entry(table, Body(o), 0);
    if e == |table| then f else Put(f, table[e], StartsWithNo(o) == table[e].inverse)
  }

  function Fold(table: seq<MntOpt>, f: Flags, list: seq<string>): Flags {
    if list == [] then f else Effect(table, Fold(table, f, list[..|list| - 1]), list[|list| - 1])
  }

  predicate AllRecognised(table: seq<MntOpt>, list: seq<string>) {
    forall k :: 0 <= k < |list| ==> Recognised(table, list[k])
  }

  lemma FoldNext(table: seq<MntOpt>, f: Flags, list: seq<string>, o: string)
    ensures Fold(table, f, list + [o]) == Effect(table, Fold(table, f, list), o)
  {
    assert (list + [o])[..|list|] == list;
  }

  // ---------------------------------------------------------------- getmntopts

  /** The next token of `strtok` is the next one that is not empty. */
  lemma NextNonEmpty(s: string, p: nat, done: seq<string>)
    requires p <= |s|
    ensures var o := s[p..TokenEnd(s, p)];
      done + NonEmpty(Tokens(s, p)) == (if o == "" then done else done + [o]) + NonEmpty(Rest(s, After(s, p)))
  {
    var e := TokenEnd(s, p);
    var o := s[p..e];
    assert e == |s| ==> o == s[p..];
    assert Tokens(s, p) == [o] + Rest(s, After(s, p));
    NonEmptyAppend([o], Rest(s, After(s, p)));
    NonEmptyOne(o);
  }

  /** `getmntopts`.  It fails at the first token that no entry matches, unless it is told to be silent. */
  method Getmntopts(options: string, table: seq<MntOpt>, flags: Flags, silent: bool) returns (ok: bool, f: Flags)
    ensures ok <==> silent || AllRecognised(table, NonEmpty(Split(options)))
    ensures ok ==> f == Fold(table, flags, NonEmpty(Split(options)))
  {
    hide Tokens, NonEmpty, Fold, Matches, Body;
    ok, f := true, flags;
    var p: int := 0;
    ghost var done: seq<string> := [];
    NothingFolded(table, flags);
    while p >= 0
      invariant -1 <= p <= |options| && NonEmpty(Split(options)) == done + NonEmpty(Rest(options, p))
      invariant f == Fold(table, flags, done) && (silent || AllRecognised(table, done))
      decreases if p >= 0 then |options| + 1 - p else 0
    {
      NextNonEmpty(options, p, done);
      var opt := options[p..TokenEnd(options, p)];
      p := After(options, p);
      if opt != "" {
        ghost var o := opt;
        var negative := StartsWithNo(opt);
        if negative {
          opt := opt[2..];
        }
        opt := Cut(opt);
        BodyIs(o);
        var k := Scan(table, opt);
        if k < |table| {
          f := Put(f, table[k], negative == table[k].inverse);
        } else if !silent {
          ok := false;
          assert o == (done + [o] + NonEmpty(Rest(options, p)))[|done|];
          return;
        }
        FoldNext(table, flags, done, o);
        done := done + [o];
      }
    }
    NothingFolded(table, flags);
    assert done + [] == done;
  }

  lemma BodyIs(o: string)
    ensures Body(o) == Cut(if StartsWithNo(o) then o[2..] else o)
  {
  }

  lemma NothingFolded(table: seq<MntOpt>, f: Flags)
    ensures Fold(table, f, []) == f && NonEmpty([]) == []
  {
  }

  /** The scan of the option table. */
  method Scan(table: seq<MntOpt>, opt: string) returns (k: nat)
    ensures k == Entry(table, opt, 0)
  {
    k := 0;
    while k < |table| && !Matches(table[k].name, opt)
      invariant k <= |table| && Entry(table, opt, 0) == Entry(table, opt, k)
    {
      k := k + 1;
    }
  }

  // ---------------------------------------------------------------- a displaced option is overridden

  function Others(x: bv32, flag: bv32): bv32 {
    x & !flag
  }

  /** `a` and `b` differ in nothing but the flag of `m`. */
  predicate Same(m: MntOpt, a: Flags, b: Flags) {
    if m.alt then a.main == b.main && Others(a.alt, m.flag) == Others(b.alt, m.flag)
    else a.alt == b.alt && Others(a.main, m.flag) == Others(b.main, m.flag)
  }

  lemma OthersOfOr(x: bv32, m: bv32, n: bv32)
    ensures Others(PutWord(x, n, true), m) == Others(x, m) | (n & !m)
  {
  }

  lemma OthersOfAnd(x: bv32, m: bv32, n: bv32)
    ensures Others(PutWord(x, n, false), m) == Others(x, m) & !n
  {
  }

  lemma WordKeepsOthers(x: bv32, y: bv32, m: bv32, n: bv32, on: bool)
    requires Others(x, m) == Others(y, m)
    ensures Others(PutWord(x, n, on), m) == Others(PutWord(y, n, on), m)
  {
    hide Others, PutWord;
    if on {
      OthersOfOr(x, m, n);
      OthersOfOr(y, m, n);
    } else {
      OthersOfAnd(x, m, n);
      OthersOfAnd(y, m, n);
    }
  }

  lemma OrAbsorbs(x: bv32, m: bv32)
    ensures PutWord(x, m, true) == Others(x, m) | m
  {
  }

  lemma WordSettles(x: bv32, y: bv32, m: bv32, on: bool)
    requires Others(x, m) == Others(y, m)
    ensures PutWord(x, m, on) == PutWord(y, m, on)
  {
    if on {
      hide Others, PutWord;
      OrAbsorbs(x, m);
      OrAbsorbs(y, m);
    }
  }

  lemma PutKeepsSame(m: MntOpt, n: MntOpt, on: bool, a: Flags, b: Flags)
    requires Same(m, a, b)
    ensures Same(m, Put(a, n, on), Put(b, n, on))
  {
    hide Others, PutWord;
    if m.alt && n.alt {
      WordKeepsOthers(a.alt, b.alt, m.flag, n.flag, on);
    } else if !m.alt && !n.alt {
      WordKeepsOthers(a.main, b.main, m.flag, n.flag, on);
    }
  }

  lemma PutSettles(m: MntOpt, on: bool, a: Flags, b: Flags)
    requires Same(m, a, b)
    ensures Put(a, m, on) == Put(b, m, on)
  {
    hide Others, PutWord;
    if m.alt {
      WordSettles(a.alt, b.alt, m.flag, on);
    } else {
      WordSettles(a.main, b.main, m.flag, on);
    }
  }

  /** The flag of `n` has no effect, or it is among those of `m`, in the same word. */
  predicate Covered(m: MntOpt, n: MntOpt) {
    n.flag == 0 || (m.alt == n.alt && Others(n.flag, m.flag) == 0)
  }

  lemma WordInside(x: bv32, m: bv32, n: bv32, on: bool)
    requires Others(n, m) == 0
    ensures Others(x, m) == Others(PutWord(x, n, on), m)
  {
    hide Others, PutWord;
    if on {
      OthersOfOr(x, m, n);
      OthersIs(n, m);
      OrZero(Others(x, m));
    } else {
      OthersOfAnd(x, m, n);
      InsideIsMasked(x, m, n);
    }
  }

  lemma OthersIs(n: bv32, m: bv32)
    ensures Others(n, m) == n & !m
  {
  }

  lemma OrZero(x: bv32)
    ensures x | 0 == x
  {
  }

  lemma InsideIsMasked(x: bv32, m: bv32, n: bv32)
    requires Others(n, m) == 0
    ensures Others(x, m) & !n == Others(x, m)
  {
  }

  lemma NoFlag(x: bv32, on: bool)
    ensures PutWord(x, 0, on) == x
  {
    if on {
      OrZero(x);
    } else {
      AndOnes(x);
    }
  }

  lemma AndOnes(x: bv32)
    ensures x & !(0 as bv32) == x
  {
  }

  /** A covered entry changes nothing but the flag that covers it. */
  lemma PutInside(m: MntOpt, n: MntOpt, on: bool, a: Flags)
    requires Covered(m, n)
    ensures Same(m, a, Put(a, n, on)) && (n.flag == 0 ==> Put(a, n, on) == a)
  {
    hide Others, PutWord;
    if n.flag == 0 {
      NoFlag(a.main, on);
      NoFlag(a.alt, on);
    } else {
      WordInside(if m.alt then a.alt else a.main, m.flag, n.flag, on);
    }
  }

  /** Only a covered entry is overridden from all flags. */
  lemma PutOutside(m: MntOpt, n: MntOpt, x: bool, y: bool, f: Flags)
    requires f == (if x then Flags(0, 0) else Flags(0xFFFF_FFFF, 0xFFFF_FFFF))
    requires Put(Put(f, n, x), m, y) == Put(f, m, y)
    ensures Covered(m, n)
  {
    hide Others, PutWord;
    var w: bv32 := if x then 0 else 0xFFFF_FFFF;
    if m.alt == n.alt {
      WordOutside(w, m.flag, n.flag, x, y);
    } else {
      WordChanges(w, n.flag, x);
    }
  }

  lemma WordChanges(w: bv32, n: bv32, x: bool)
    requires w == (if x then 0 else 0xFFFF_FFFF) && PutWord(w, n, x) == w
    ensures n == 0
  {
    if x {
      assert 0 | n == n;
    } else {
      assert 0xFFFF_FFFF & !n == !n;
      assert !(!n) == n;
    }
  }

  lemma WordOutside(w: bv32, m: bv32, n: bv32, x: bool, y: bool)
    requires w == (if x then 0 else 0xFFFF_FFFF) && PutWord(PutWord(w, n, x), m, y) == PutWord(w, m, y)
    ensures Others(n, m) == 0
  {
    hide Others, PutWord;
    WordItself(PutWord(w, n, x), m, y);
    WordItself(w, m, y);
    if x {
      ZeroOthers(n, m);
    } else {
      OnesOthers(n, m);
    }
  }

  lemma WordItself(x: bv32, m: bv32, on: bool)
    ensures Others(x, m) == Others(PutWord(x, m, on), m)
  {
    assert x & !m == (x | m) & !m;
    assert x & !m == (x & !m) & !m;
  }

  lemma ZeroOthers(n: bv32, m: bv32)
    ensures Others(PutWord(0, n, true), m) == Others(n, m) && Others(0, m) == 0
  {
  }

  lemma OnesOthers(n: bv32, m: bv32)
    requires Others(PutWord(0xFFFF_FFFF, n, false), m) == Others(0xFFFF_FFFF, m)
    ensures Others(n, m) == 0
  {
    assert !n & !m == !m;
    assert n & !m == n & (!n & !m);
    assert n & (!n & !m) == 0;
  }

  lemma SameThrough(m: MntOpt, a: Flags, b: Flags, c: Flags)
    requires Same(m, a, b) && Same(m, b, c)
    ensures Same(m, a, c)
  {
  }

  predicate CoveredBy(table: seq<MntOpt>, e: nat, t: string)
    requires e < |table|
  {
    Recognised(table, t) && Covered(table[e], table[Entry(table, Body(t), 0)])
  }

  /** Taking out a token whose entry is covered by entry `e` changes nothing but that flag. */
  lemma {:induction false} WithoutSame(table: seq<MntOpt>, f: Flags, list: seq<string>, t: string, e: nat)
    requires e < |table| && (t in list ==> CoveredBy(table, e, t))
    ensures Same(table[e], Fold(table, f, Without(list, t)), Fold(table, f, list))
  {
    hide Same, Put, Fold;
    if list == [] {
      NothingFolded(table, f);
      SameAsItself(table[e], f);
      assert Without([], t) == [];
    } else {
      var before, last := list[..|list| - 1], list[|list| - 1];
      assert list == before + [last];
      WithoutSame(table, f, before, t, e);
      WithoutAppend(before, [last], t);
      WithoutOne(last, t);
      FoldNext(table, f, before, last);
      var a, b := Fold(table, f, Without(before, t)), Fold(table, f, before);
      if last == t {
        assert Without(list, t) == Without(before, t);
        var k := Entry(table, Body(last), 0);
        PutInside(table[e], table[k], StartsWithNo(last) == table[k].inverse, b);
        SameThrough(table[e], a, b, Effect(table, b, last));
      } else {
        FoldNext(table, f, Without(before, t), last);
        var k := Entry(table, Body(last), 0);
        if k < |table| {
          PutKeepsSame(table[e], table[k], StartsWithNo(last) == table[k].inverse, a, b);
        }
      }
    }
  }

  lemma SameAsItself(m: MntOpt, a: Flags)
    ensures Same(m, a, a)
  {
  }

  lemma WithoutOne(last: string, t: string)
    ensures Without([last], t) == if last == t then [] else [last]
  {
  }

  /** No entry is named like a negated option: none matches a token that begins with "no". */
  predicate NoNegatedNames(table: seq<MntOpt>) {
    forall k :: 0 <= k < |table| ==>
      var n := table[k].name;
      n != "" && !(Lower(n[0]) == 'n' && (|n| == 1 || Lower(n[1]) == 'o'))
  }

  lemma NoNoMatch(table: seq<MntOpt>, x: string)
    requires NoNegatedNames(table) && StartsWithNo(x)
    ensures Entry(table, Cut(x), 0) == |table|
  {
    var e := Entry(table, Cut(x), 0);
    if e < |table| {
      CutNo(x);
    }
  }

  lemma CutNo(x: string)
    requires StartsWithNo(x)
    ensures StartsWithNo(Cut(x))
  {
    assert x[1..][0] == 'o';
    assert Cut(x) == [x[0]] + Cut(x[1..]);
  }

  /** A recognised token and its negation have the same entry. */
  lemma Negation(table: seq<MntOpt>, o: string)
    requires NoNegatedNames(table) && Recognised(table, o)
    ensures var e := Entry(table, Body(o), 0);
      if StartsWithNo(o) then
        !Recognised(table, "no" + o) && !StartsWithNo(o[2..]) && Entry(table, Body(o[2..]), 0) == e
      else Entry(table, Body("no" + o), 0) == e
  {
    var t := "no" + o;
    assert StartsWithNo(t) && t[2..] == o;
    if StartsWithNo(o) {
      NoNoMatch(table, o);
      if StartsWithNo(o[2..]) {
        NoNoMatch(table, o[2..]);
      }
    }
  }

  /** A token that displaces another overrides it. */
  ghost predicate Overrides(table: seq<MntOpt>, o: string, t: string)
    requires Recognised(table, t) && (o == "" || Recognised(table, o))
  {
    var n := table[Entry(table, Body(t), 0)];
    if o == "" then n.flag == 0 else Covered(table[Entry(table, Body(o), 0)], n)
  }

  /** `o` takes `t` out of a list. */
  predicate Displaces(o: string, t: string) {
    t == "no" + o || (StartsWithNo(o) && |o| > 2 && t == o[2..])
  }

  /** Whatever a known token displaces it also overrides. */
  ghost predicate Compatible(table: seq<MntOpt>) {
    forall o: string, t: string ::
      CommaFree(o) && (o == "" || Recognised(table, o)) && Recognised(table, t) && Displaces(o, t) ==>
      Overrides(table, o, t)
  }

  /** A table without names like negations is compatible. */
  lemma NoNegatedNamesSuffice(table: seq<MntOpt>)
    requires NoNegatedNames(table)
    ensures Compatible(table)
  {
    hide Entry, Body, Others;
    forall o: string, t: string |
      CommaFree(o) && (o == "" || Recognised(table, o)) && Recognised(table, t) && Displaces(o, t)
      ensures Overrides(table, o, t)
    {
      if o == "" {
        NoIsUnknown(table);
      } else {
        Negation(table, o);
        CoversItself(table[Entry(table, Body(o), 0)]);
      }
    }
  }

  lemma NoIsUnknown(table: seq<MntOpt>)
    requires NoNegatedNames(table)
    ensures "no" + "" == "no" && !Recognised(table, "no")
  {
    assert "no"[2..] == "" && Cut("") == "";
    assert Entry(table, "", 0) == |table|;
  }

  lemma CoversItself(m: MntOpt)
    ensures Covered(m, m)
  {
  }

  /** Rewriting one step sets the same flags as appending the token. */
  lemma RewriteSame(table: seq<MntOpt>, f: Flags, list: seq<string>, o: string)
    requires Compatible(table) && AllRecognised(table, list) && Plain(list)
    requires Recognised(table, o) && o != "" && CommaFree(o)
    ensures Fold(table, f, Rewrite(list, o)) == Effect(table, Fold(table, f, list), o)
  {
    hide Same, Put, Fold, Entry, Body, Covered;
    var e := Entry(table, Body(o), 0);
    var a := Without(list, "no" + o);
    var on := StartsWithNo(o) == table[e].inverse;
    assert "no" + o in list ==> Displaces(o, "no" + o) && Overrides(table, o, "no" + o);
    WithoutSame(table, f, list, "no" + o, e);
    WithoutPlain(list, "no" + o);
    if StartsWithNo(o) && |o| > 2 {
      var b := Without(a, o[2..]);
      assert o[2..] in list ==> Displaces(o, o[2..]) && Overrides(table, o, o[2..]);
      WithoutSame(table, f, a, o[2..], e);
      SameThrough(table[e], Fold(table, f, b), Fold(table, f, a), Fold(table, f, list));
      PutSettles(table[e], on, Fold(table, f, b), Fold(table, f, list));
      FoldNext(table, f, b, o);
    } else {
      PutSettles(table[e], on, Fold(table, f, a), Fold(table, f, list));
      FoldNext(table, f, a, o);
    }
  }

  /** An empty token takes out "no", which has no effect in a compatible table. */
  lemma RewriteEmpty(table: seq<MntOpt>, f: Flags, list: seq<string>)
    requires Compatible(table) && AllRecognised(table, list)
    ensures Fold(table, f, Rewrite(list, "")) == Fold(table, f, list)
  {
    hide Fold, Entry, Body;
    assert "no" + "" == "no";
    assert "no" in list ==> Displaces("", "no") && Overrides(table, "", "no");
    WithoutIdle(table, f, list, "no");
  }

  lemma {:induction false} WithoutIdle(table: seq<MntOpt>, f: Flags, list: seq<string>, t: string)
    requires t in list ==> Recognised(table, t) && table[Entry(table, Body(t), 0)].flag == 0
    ensures Fold(table, f, Without(list, t)) == Fold(table, f, list)
  {
    hide Put, Fold, Entry, Body;
    if list == [] {
      assert Without([], t) == [];
    } else {
      var before, last := list[..|list| - 1], list[|list| - 1];
      assert list == before + [last];
      WithoutIdle(table, f, before, t);
      WithoutAppend(before, [last], t);
      WithoutOne(last, t);
      FoldNext(table, f, before, last);
      if last == t {
        assert Without(list, t) == Without(before, t);
        var n := table[Entry(table, Body(t), 0)];
        PutInside(n, n, StartsWithNo(t) == n.inverse, Fold(table, f, before));
      } else {
        FoldNext(table, f, Without(before, t), last);
      }
    }
  }

  /** One more token: `list` is the rewritten form of the tokens `all`. */
  lemma StepSame(table: seq<MntOpt>, f: Flags, list: seq<string>, all: seq<string>, o: string)
    requires Compatible(table) && AllRecognised(table, list) && Plain(list)
    requires CommaFree(o) && (o == "" || Recognised(table, o)) && Fold(table, f, list) == Fold(table, f, all)
    ensures Fold(table, f, Rewrite(list, o)) == Fold(table, f, if o == "" then all else all + [o])
    ensures AllRecognised(table, Rewrite(list, o))
  {
    hide Fold, Rewrite, Recognised, Compatible;
    RewriteMembers(list, o);
    var r := Rewrite(list, o);
    forall k | 0 <= k < |r| ensures Recognised(table, r[k]) {
      assert r[k] in r;
    }
    if o == "" {
      RewriteEmpty(table, f, list);
    } else {
      RewriteSame(table, f, list, o);
      FoldNext(table, f, all, o);
    }
  }

  lemma {:induction false} RewrittenSame(table: seq<MntOpt>, f: Flags, list: seq<string>)
    requires Compatible(table) && AllRecognised(table, NonEmpty(list)) && AllCommaFree(list)
    ensures Fold(table, f, Rewritten(list)) == Fold(table, f, NonEmpty(list))
    ensures AllRecognised(table, Rewritten(list))
  {
    hide Fold, Rewrite, Recognised, Compatible;
    if list != [] {
      var before, o := list[..|list| - 1], list[|list| - 1];
      assert list == before + [o];
      NonEmptyAppend(before, [o]);
      NonEmptyOne(o);
      assert NonEmpty(before) + [] == NonEmpty(before);
      assert forall k :: 0 <= k < |NonEmpty(before)| ==> NonEmpty(before)[k] == NonEmpty(list)[k];
      assert o == "" || o == NonEmpty(list)[|NonEmpty(list)| - 1];
      RewrittenSame(table, f, before);
      RewrittenPlain(before);
      StepSame(table, f, Rewritten(before), NonEmpty(before), o);
    }
  }

  lemma RewriteMembers(list: seq<string>, o: string)
    requires Plain(list)
    ensures forall t :: t in Rewrite(list, o) ==> t in list || (t == o && o != "")
  {
    WithoutPlain(list, "no" + o);
    if StartsWithNo(o) {
      WithoutPlain(Without(list, "no" + o), o[2..]);
    }
  }

  function Meaning(table: seq<MntOpt>, f: Flags, p: Ptr): Flags {
    Fold(table, f, NonEmpty(TokensOf(p)))
  }

  /** Rewriting keeps the flags of every list of recognised options, from any flags to start with. */
  ghost predicate RewritingSafe(table: seq<MntOpt>) {
    forall list: seq<string>, f: Flags ::
      AllCommaFree(list) && AllRecognised(table, NonEmpty(list)) ==>
      Fold(table, f, Rewritten(list)) == Fold(table, f, NonEmpty(list))
  }

  /** That holds exactly for the compatible tables. */
  lemma SafeExactly(table: seq<MntOpt>)
    ensures RewritingSafe(table) <==> Compatible(table)
  {
    hide Fold, Rewritten, Recognised, Compatible;
    if Compatible(table) {
      forall list: seq<string>, f: Flags | AllCommaFree(list) && AllRecognised(table, NonEmpty(list))
        ensures Fold(table, f, Rewritten(list)) == Fold(table, f, NonEmpty(list))
      {
        RewrittenSame(table, f, list);
      }
    }
    if RewritingSafe(table) {
      SafeIsCompatible(table);
    }
  }

  /** The options of the local file systems, by the names of `mntopts.h` and in the order of `mopts`. */
  function UfsNames(): seq<string> {
    ["userquota", "groupquota", "ro", "rw", "auto", "atime", "dev", "exec", "suiddir", "suid", "symfollow",
     "rdonly", "union", "clusterr", "clusterw", "async", "force", "sync", "update"]
  }

  /** Rewriting is safe for them, whatever bits they stand for. */
  lemma UfsIsSafe(table: seq<MntOpt>)
    requires |table| == |UfsNames()| && forall k :: 0 <= k < |table| ==> table[k].name == UfsNames()[k]
    ensures NoNegatedNames(table) && RewritingSafe(table)
  {
    hide Compatible, RewritingSafe;
    forall k | 0 <= k < |table|
      ensures var n := table[k].name; n != "" && !(Lower(n[0]) == 'n' && (|n| == 1 || Lower(n[1]) == 'o'))
    {
      assert UfsNames()[k] != "" && UfsNames()[k][0] != 'n' && 'a' <= UfsNames()[k][0] <= 'z';
    }
    NoNegatedNamesSuffice(table);
    SafeExactly(table);
  }

  predicate AllCommaFree(list: seq<string>) {
    forall k :: 0 <= k < |list| ==> CommaFree(list[k])
  }

  lemma SafeIsCompatible(table: seq<MntOpt>)
    requires RewritingSafe(table)
    ensures Compatible(table)
  {
    hide RewritingSafe, Recognised, Covered, Entry, Body;
    forall o: string, t: string |
      CommaFree(o) && (o == "" || Recognised(table, o)) && Recognised(table, t) && Displaces(o, t)
      ensures Overrides(table, o, t)
    {
      OnlyPair(table, o, t);
    }
  }

  /** The list of a displaced token and the one that displaces it. */
  lemma PairFolds(table: seq<MntOpt>, o: string, t: string, f: Flags)
    requires CommaFree(o) && (o == "" || Recognised(table, o)) && Recognised(table, t) && Displaces(o, t)
    requires RewritingSafe(table)
    ensures if o == "" then Effect(table, f, t) == f
            else Effect(table, Effect(table, f, t), o) == Effect(table, f, o)
  {
    hide Fold, Rewritten, Effect, Recognised, NonEmpty;
    var list := [t, o];
    assert [t] + [o] == list && [] + [t] == [t] && [] + [o] == [o] && [t] + [] == [t];
    NonEmptyAppend([t], [o]);
    NonEmptyOne(t);
    NonEmptyOne(o);
    assert AllCommaFree(list) && AllRecognised(table, NonEmpty(list));
    assert Fold(table, f, Rewritten(list)) == Fold(table, f, NonEmpty(list));
    PairRewritten(o, t);
    FoldNext(table, f, [], t);
    FoldNext(table, f, [], o);
    FoldNext(table, f, [t], o);
    NothingFolded(table, f);
  }

  lemma OnlyPair(table: seq<MntOpt>, o: string, t: string)
    requires CommaFree(o) && (o == "" || Recognised(table, o)) && Recognised(table, t) && Displaces(o, t)
    requires RewritingSafe(table)
    ensures Overrides(table, o, t)
  {
    hide RewritingSafe, Covered, Entry, Body, Put;
    var n := table[Entry(table, Body(t), 0)];
    var x := StartsWithNo(t) == n.inverse;
    var f := if x then Flags(0, 0) else Flags(0xFFFF_FFFF, 0xFFFF_FFFF);
    PairFolds(table, o, t, f);
    if o == "" {
      IdleAfter(f, n);
      PutOutside(n.(flag := 0), n, x, true, f);
      OutsideNothing(n);
    } else {
      var m := table[Entry(table, Body(o), 0)];
      PutOutside(m, n, x, StartsWithNo(o) == m.inverse, f);
    }
  }

  lemma IdleAfter(f: Flags, n: MntOpt)
    ensures Put(f, n.(flag := 0), true) == f
  {
    hide PutWord;
    NoFlag(f.main, true);
    NoFlag(f.alt, true);
  }

  lemma OutsideNothing(n: MntOpt)
    requires Covered(n.(flag := 0), n)
    ensures n.flag == 0
  {
    assert n.flag & !(0 as bv32) == n.flag;
  }

  lemma PairRewritten(o: string, t: string)
    requires Displaces(o, t) && t != ""
    ensures Rewritten([t, o]) == if o == "" then [] else [o]
  {
    hide Rewritten, Without;
    assert [t] + [o] == [t, o] && [] + [t] == [t];
    NothingDone();
    RewrittenNext([], t);
    RewrittenNext([t], o);
    assert Without([], "no" + t) == [] && (|t| > 2 ==> Without([], t[2..]) == []) && Without([], o) == [] by {
      NotThere([], "no" + t);
      if |t| > 2 {
        NotThere([], t[2..]);
      }
      NotThere([], o);
    }
    WithoutOne(t, "no" + o);
    if StartsWithNo(o) && |o| > 2 {
      WithoutOne(t, o[2..]);
      NotThere([], o[2..]);
    }
  }

  lemma {:induction false} NotThere(list: seq<string>, t: string)
    requires t !in list
    ensures Without(list, t) == list
  {
    if list != [] {
      NotThere(list[1..], t);
    }
  }

  /** `update_options` keeps the meaning of a list of recognised options, from any flags to start with. */
  lemma UpdateKeepsMeaning(table: seq<MntOpt>, f: Flags, expanded: Ptr)
    requires Compatible(table) && AllRecognised(table, NonEmpty(TokensOf(expanded)))
    ensures var list := TokensOf(expanded);
      Meaning(table, f, Result(list)) == Meaning(table, f, expanded)
  {
    hide Fold, Written, Rewritten, Recognised, Compatible;
    var list := TokensOf(expanded);
    if expanded.Text? {
      TokensAreCommaFree(expanded.s, 0);
    }
    if NonEmpty(list) == [] {
      assert NonEmpty([]) == [];
    } else {
      RewrittenPlain(list);
      RewrittenSame(table, f, list);
      SplitWritten(Rewritten(list));
    }
  }

  /** With an option named like a negated one, rewriting can change the flags: of "nonotice,notice" only
      "notice" is left, which means the negation of "tice". */
  lemma NegatedNamesMatter(table: seq<MntOpt>, f: Flags, list: seq<string>)
    requires table == [MntOpt("notice", false, 1, false), MntOpt("tice", false, 2, false)]
    requires f == Flags(3, 0) && list == ["nonotice", "notice"]
    ensures AllRecognised(table, list)
    ensures Fold(table, f, Rewritten(list)) == Flags(1, 0) && Fold(table, f, list) == Flags(0, 0)
  {
    hide Fold, Put, Entry, Body, Rewrite, Rewritten, StartsWithNo;
    var a, b := list[0], list[1];
    assert list == [a] + [b] && [] + [a] == [a] && [] + [b] == [b];
    Bodies(a, b);
    EntryOf(table);
    Masks();
    FoldNext(table, f, [], a);
    FoldNext(table, f, [a], b);
    FoldNext(table, f, [], b);
    NothingFolded(table, f);
    assert Rewritten([]) == [] by {
      NothingDone();
    }
    RewrittenNext([], a);
    RewrittenNext([a], b);
    Displaced(a, b);
  }

  lemma Bodies(a: string, b: string)
    requires a == "nonotice" && b == "notice"
    ensures StartsWithNo(a) && Body(a) == "notice" && StartsWithNo(b) && Body(b) == "tice"
  {
    hide Cut;
    assert a[2..] == "notice" && b[2..] == "tice";
    NoEquals("notice");
    NoEquals("tice");
  }

  lemma {:induction false} NoEquals(s: string)
    requires forall i :: 0 <= i < |s| ==> s[i] != '='
    ensures Cut(s) == s
  {
    if s != "" {
      NoEquals(s[1..]);
    }
  }

  lemma EntryOf(table: seq<MntOpt>)
    requires |table| == 2 && table[0].name == "notice" && table[1].name == "tice"
    ensures Entry(table, "notice", 0) == 0 && Entry(table, "tice", 0) == 1
  {
    assert Entry(table, "tice", 1) == 1;
  }

  lemma Masks()
    ensures Put(Flags(3, 0), MntOpt("notice", false, 1, false), false) == Flags(2, 0)
    ensures Put(Flags(2, 0), MntOpt("tice", false, 2, false), false) == Flags(0, 0)
    ensures Put(Flags(3, 0), MntOpt("tice", false, 2, false), false) == Flags(1, 0)
  {
  }

  lemma Displaced(a: string, b: string)
    requires a == "nonotice" && b == "notice"
    ensures Rewrite([], a) == [a] && Rewrite([a], b) == [b]
  {
    assert "no" + b == a;
    assert Without([], a) == [] && Without([a], a) == [];
    assert Without([], b[2..]) == [] && Without([], "no" + a) == [] && Without([], a[2..]) == [];
    assert [] + [a] == [a] && [] + [b] == [b];
  }
}
