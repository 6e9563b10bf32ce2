/** `update_options` and `getmntopts`: a rewritten option list sets the same flags. */
module MountUpdate {
  import opened MountOpts

  // ---------------------------------------------------------------- joined lists

  predicate CommaFree(s: string) {
    forall i :: 0 <= i < |s| ==> s[i] != ','
  }

  predicate Plain(list: seq<string>) {
    forall k :: 0 <= k < |list| ==> list[k] != "" && CommaFree(list[k])
  }

  function NonEmpty(list: seq<string>): (r: seq<string>)
    ensures forall k :: 0 <= k < |r| ==> r[k] != "" && r[k] in list
  {
    if list == [] then []
    else if list[0] == "" then NonEmpty(list[1..])
    else [list[0]] + NonEmpty(list[1..])
  }

  lemma {:induction false} NonEmptyAppend(a: seq<string>, b: seq<string>)
    ensures NonEmpty(a + b) == NonEmpty(a) + NonEmpty(b)
  {
    if a == [] {
      assert a + b == b;
    } else {
      assert (a + b)[1..] == a[1..] + b;
      NonEmptyAppend(a[1..], b);
    }
  }

  lemma {:induction false} NonEmptyPlain(a: seq<string>)
    requires Plain(a)
    ensures NonEmpty(a) == a
  {
    if a != [] {
      NonEmptyPlain(a[1..]);
    }
  }

  lemma {:induction false} TokensAreCommaFree(s: string, p: nat)
    requires p <= |s|
    ensures forall k :: 0 <= k < |Tokens(s, p)| ==> CommaFree(Tokens(s, p)[k])
    decreases |s| - p
  {
    TokenEndFinds(s, p);
    var e := TokenEnd(s, p);
    if e < |s| {
      TokensAreCommaFree(s, e + 1);
    }
  }

  lemma {:induction false} TokenEndShift(a: string, b: string, q: nat)
    requires q <= |b|
    ensures TokenEnd(a + b, |a| + q) == |a| + TokenEnd(b, q)
    decreases |b| - q
  {
    if q < |b| && b[q] != ',' {
      TokenEndShift(a, b, q + 1);
    }
  }

  lemma {:induction false} TokensShift(a: string, b: string, q: nat)
    requires q <= |b|
    ensures Tokens(a + b, |a| + q) == Tokens(b, q)
    decreases |b| - q
  {
    hide TokenEnd;
    TokenEndShift(a, b, q);
    var e := TokenEnd(b, q);
    assert (a + b)[|a| + q..|a| + e] == b[q..e];
    if e < |b| {
      TokensShift(a, b, e + 1);
      assert |a| + (e + 1) == |a| + e + 1;
    } else {
      assert (a + b)[|a| + q..] == b[q..];
    }
  }

  lemma {:induction false} TokenEndPrefix(a: string, b: string, p: nat)
    requires p <= |a|
    ensures TokenEnd(a + "," + b, p) == TokenEnd(a, p)
    decreases |a| - p
  {
    if p < |a| && a[p] != ',' {
      TokenEndPrefix(a, b, p + 1);
    }
  }

  lemma {:induction false} TokensConcat(a: string, b: string, p: nat)
    requires p <= |a|
    ensures Tokens(a + "," + b, p) == Tokens(a, p) + Split(b)
    decreases |a| - p
  {
    hide TokenEnd;
    TokenEndPrefix(a, b, p);
    var e, s := TokenEnd(a, p), a + "," + b;
    assert s[p..e] == a[p..e];
    if e < |a| {
      TokensConcat(a, b, e + 1);
    } else {
      TokensShift(a + ",", b, 0);
      assert a[p..e] == a[p..];
    }
  }

  lemma {:induction false} TokenEndAll(s: string, p: nat)
    requires p <= |s| && CommaFree(s)
    ensures TokenEnd(s, p) == |s|
    decreases |s| - p
  {
    if p < |s| {
      TokenEndAll(s, p + 1);
    }
  }

  lemma SplitOne(s: string)
    requires CommaFree(s)
    ensures Split(s) == [s]
  {
    TokenEndAll(s, 0);
  }

  /** A list of plain tokens is read back from its joined form. */
  lemma {:induction false} SplitWritten(list: seq<string>)
    requires Plain(list)
    ensures NonEmpty(Split(Written(list))) == list && (list != [] ==> Split(Written(list)) == list)
  {
    hide Tokens;
    if list == [] {
      SplitOne("");
      assert NonEmpty([""]) == NonEmpty([]);
    } else {
      hide Written, NonEmpty;
      var before, last := list[..|list| - 1], list[|list| - 1];
      SplitWritten(before);
      SplitOne(last);
      assert list == before + [last];
      WrittenNext(before, last);
      if before != [] {
        TokensConcat(Written(before), last, 0);
      }
      NonEmptyPlain(list);
    }
  }

  lemma {:induction false} WithoutPlain(list: seq<string>, opt: string)
    requires Plain(list)
    ensures Plain(Without(list, opt)) && opt !in Without(list, opt)
    ensures forall t :: t in Without(list, opt) ==> t in list
  {
    if list != [] {
      WithoutPlain(list[1..], opt);
    }
  }

  /** Removing an option from the joined list removes it from the list. */
  lemma RemovedIs(list: seq<string>, opt: string)
    requires Plain(list) && opt != ""
    ensures Removed(Written(list), opt) == Written(Without(list, opt))
  {
    SplitWritten(list);
    if list != [] {
      WrittenNotEmpty(list);
    }
  }

  lemma {:induction false} WrittenNotEmpty(list: seq<string>)
    requires Plain(list) && list != []
    ensures Written(list) != ""
  {
    var before := list[..|list| - 1];
    if before != [] {
      WrittenNotEmpty(before);
    }
  }

  // ---------------------------------------------------------------- update_options

  datatype Ptr = Null | Text(s: string)

  function TokensOf(p: Ptr): seq<string> {
    if p.Null? then [] else Split(p.s)
  }

  /** `catopt`. */
  function Catopt(s0: Ptr, s1: Ptr): (r: Ptr)
    ensures NonEmpty(TokensOf(r)) == NonEmpty(TokensOf(s0)) + NonEmpty(TokensOf(s1))
  {
    if s1.Null? || s1.s == "" then assert s1.Text? ==> Split("") == [""]; s0
    else if s0.Text? && s0.s != "" then
      TokensConcat(s0.s, s1.s, 0);
      NonEmptyAppend(Split(s0.s), Split(s1.s));
      Text(s0.s + "," + s1.s)
    else assert s0.Text? ==> Split("") == [""]; s1
  }

  /** What a token of the caller's list stands for. */
  function Meta(o: string, fstab: Ptr, current: string): Ptr {
    if o == "fstab" then fstab else if o == "current" then Text(current) else Text(o)
  }

  function Expansion(list: seq<string>, fstab: Ptr, current: string): seq<string> {
    if list == [] then []
    else Expansion(list[..|list| - 1], fstab, current) + NonEmpty(TokensOf(Meta(list[|list| - 1], fstab, current)))
  }

  function StartsWithNo(o: string): bool {
    |o| >= 2 && o[0] == 'n' && o[1] == 'o'
  }

  /** The list with `o` behind it and what `o` contradicts taken out. */
  function Rewrite(list: seq<string>, o: string): seq<string> {
    var a := Without(list, "no" + o);
    var b := if StartsWithNo(o) && |o| > 2 then Without(a, o[2..]) else a;
    if o == "" then b else b + [o]
  }

  /** All tokens, one after the other. */
  function Rewritten(list: seq<string>): seq<string> {
    if list == [] then [] else Rewrite(Rewritten(list[..|list| - 1]), list[|list| - 1])
  }

  /** `remopt` on a string of its own. */
  method RemoptPtr(p: Ptr, opt: string) returns (r: Ptr)
    requires p.Text? ==> IsString(p.s)
    ensures r == if p.Null? then Null else Text(Removed(p.s, opt))
    ensures r.Text? ==> IsString(r.s)
  {
    if p.Null? {
      return Null;
    }
    var n := |p.s|;
    var buf := new char[n + 1](i requires 0 <= i <= n => if i < n then p.s[i] else NUL);
    assert buf[..n] == p.s;
    StrLenIs(buf[..], 0, n);
    Remopt(buf, opt);
    StrLenFinds(buf[..], 0);
    var e := StrLen(buf[..], 0);
    r := Text(buf[..e]);
    assert buf[..e] == Str(buf[..]);
  }

  /** What `update_options` returns: null when every token was empty. */
  function Result(list: seq<string>): Ptr {
    if NonEmpty(list) == [] then Null else Text(Written(Rewritten(list)))
  }

  lemma ResultNext(done: seq<string>, o: string, p: Ptr)
    requires (forall k :: 0 <= k < |done| ==> CommaFree(done[k])) && CommaFree(o) && IsString(o)
    requires Plain(Rewritten(done)) && p == Result(done) && (p.Null? ==> Rewritten(done) == [])
    ensures Rewritten(done + [o]) == Rewrite(Rewritten(done), o) && Plain(Rewritten(done + [o]))
    ensures var a := if p.Null? then Null else Text(Removed(p.s, "no" + o));
      var b := if StartsWithNo(o) then (if a.Null? then Null else Text(Removed(a.s, o[2..]))) else a;
      var r := Catopt(b, Text(o));
      r == Result(done + [o]) && (r.Null? ==> Rewritten(done + [o]) == [])
  {
    hide Written, Removed, Rewrite, Rewritten, NonEmpty;
    RewrittenNext(done, o);
    RewriteStep(Rewritten(done), o);
    NonEmptyAppend(done, [o]);
    NonEmptyOne(o);
    RewriteNothing(o);
    if p.Null? {
      WrittenNone();
      NothingRemoved("no" + o);
      if StartsWithNo(o) {
        NothingRemoved(o[2..]);
      }
    }
  }

  lemma NonEmptyOne(o: string)
    ensures NonEmpty([o]) == if o == "" then [] else [o]
  {
    assert NonEmpty([]) == [];
  }

  lemma RewriteNothing(o: string)
    ensures Rewrite([], o) == if o == "" then [] else [o]
  {
    assert Without([], "no" + o) == [] && (|o| > 2 ==> Without([], o[2..]) == []);
    assert [] + [o] == [o];
  }

  lemma NothingRemoved(opt: string)
    ensures Removed("", opt) == ""
  {
  }

  lemma {:induction false} RewrittenPlain(list: seq<string>)
    requires forall k :: 0 <= k < |list| ==> CommaFree(list[k])
    ensures Plain(Rewritten(list)) && forall t :: t in Rewritten(list) ==> t in list
  {
    if list != [] {
      var o, before := list[|list| - 1], Rewritten(list[..|list| - 1]);
      RewrittenPlain(list[..|list| - 1]);
      WithoutPlain(before, "no" + o);
      if StartsWithNo(o) {
        WithoutPlain(Without(before, "no" + o), o[2..]);
      }
    }
  }

  /** One `catopt` after the contradicted options have been removed from the list. */
  lemma RewriteStep(list: seq<string>, o: string)
    requires Plain(list) && CommaFree(o) && IsString(o)
    ensures Plain(Rewrite(list, o))
    ensures var a := Removed(Written(list), "no" + o);
      var b := if StartsWithNo(o) then Removed(a, o[2..]) else a;
      && Written(Rewrite(list, o)) == (if o == "" then b else if b == "" then o else b + "," + o)
  {
    hide Written, Removed;
    var la := Without(list, "no" + o);
    var lb := if StartsWithNo(o) && |o| > 2 then Without(la, o[2..]) else la;
    RemovedIs(list, "no" + o);
    WithoutPlain(list, "no" + o);
    if StartsWithNo(o) && |o| > 2 {
      RemovedIs(la, o[2..]);
      WithoutPlain(la, o[2..]);
    } else if StartsWithNo(o) {
      RemoveNothing(Written(la));
    }
    if lb != [] {
      WrittenNotEmpty(lb);
    }
    WrittenNext(lb, o);
    WrittenNone();
  }

  lemma RemoveNothing(s: string)
    ensures Removed(s, "") == s
  {
  }

  lemma WrittenNone()
    ensures Written([]) == ""
  {
  }

  /** `update_options`: expand the meta options, then let later options displace earlier ones. */
  method UpdateOptions(opts: Ptr, fstab: Ptr, current: string) returns (r: Ptr)
    requires (opts.Text? ==> IsString(opts.s)) && (fstab.Text? ==> IsString(fstab.s)) && IsString(current)
    ensures opts.Null? ==> r == Text("")
    ensures opts.Text? ==>
      var fs := if fstab.Null? then Null else Text(Removed(Removed(fstab.s, "fstab"), "current"));
      r == Result(TokensOf(Expanded(Split(opts.s), fs, current)))
  {
    hide Written, Removed, Tokens, Expanded, Result, Rewritten, NonEmpty;
    if opts.Null? {
      return Text("");
    }
    var fs := RemoptPtr(fstab, "fstab");
    fs := RemoptPtr(fs, "current");
    var expopt := Null;
    var p: int := 0;
    ghost var done: seq<string> := [];
    NothingExpanded(fs, current);
    while p >= 0
      invariant -1 <= p <= |opts.s| && expopt == Expanded(done, fs, current)
      invariant Split(opts.s) == done + Rest(opts.s, p)
      invariant expopt.Text? ==> IsString(expopt.s)
      decreases if p >= 0 then |opts.s| + 1 - p else 0
    {
      var o := opts.s[p..TokenEnd(opts.s, p)];
      FirstToken(opts.s, p, done);
      ExpandedNext(done, o, fs, current);
      p := After(opts.s, p);
      expopt := Catopt(expopt, Meta(o, fs, current));
      done := done + [o];
    }
    assert Split(opts.s) == done;
    r := Displace(expopt);
  }

  /** The expanded list. */
  function Expanded(list: seq<string>, fstab: Ptr, current: string): Ptr {
    if list == [] then Null
    else Catopt(Expanded(list[..|list| - 1], fstab, current), Meta(list[|list| - 1], fstab, current))
  }

  lemma ExpandedNext(done: seq<string>, o: string, fstab: Ptr, current: string)
    ensures Expanded(done + [o], fstab, current) == Catopt(Expanded(done, fstab, current), Meta(o, fstab, current))
  {
    assert (done + [o])[..|done|] == done;
  }

  lemma NothingExpanded(fstab: Ptr, current: string)
    ensures Expanded([], fstab, current) == Null
  {
  }

  /** It holds the tokens of everything that was expanded, in order. */
  lemma {:induction false} ExpandedTokens(list: seq<string>, fstab: Ptr, current: string)
    ensures NonEmpty(TokensOf(Expanded(list, fstab, current))) == Expansion(list, fstab, current)
  {
    if list != [] {
      ExpandedTokens(list[..|list| - 1], fstab, current);
    }
  }

  lemma FirstToken(s: string, p: nat, done: seq<string>)
    requires p <= |s| && IsString(s)
    ensures var o := s[p..TokenEnd(s, p)];
      && done + Rest(s, p) == done + [o] + Rest(s, After(s, p)) && CommaFree(o) && IsString(o)
  {
    TokenEndFinds(s, p);
    var e := TokenEnd(s, p);
    assert e == |s| ==> s[p..e] == s[p..];
    assert Tokens(s, p) == [s[p..e]] + Rest(s, After(s, p));
  }

  /** The second loop: every token displaces what it contradicts. */
  method Displace(expopt: Ptr) returns (newopt: Ptr)
    requires expopt.Text? ==> IsString(expopt.s)
    ensures newopt == Result(TokensOf(expopt))
  {
    hide Written, Removed, Tokens, Rewrite, Rewritten, Result;
    NothingDone();
    newopt := Null;
    if expopt.Null? {
      return;
    }
    var s := expopt.s;
    var p: int := 0;
    ghost var done: seq<string> := [];
    while p >= 0
      invariant -1 <= p <= |s| && Split(s) == done + Rest(s, p) && Plain(Rewritten(done))
      invariant newopt == Result(done) && (newopt.Null? ==> Rewritten(done) == [])
      invariant forall k :: 0 <= k < |done| ==> CommaFree(done[k])
      invariant newopt.Text? ==> IsString(newopt.s)
      decreases if p >= 0 then |s| + 1 - p else 0
    {
      var o := s[p..TokenEnd(s, p)];
      FirstToken(s, p, done);
      p := After(s, p);
      ghost var was := newopt;
      newopt := RemoptPtr(newopt, "no" + o);
      if StartsWithNo(o) {
        newopt := RemoptPtr(newopt, o[2..]);
      }
      newopt := Catopt(newopt, Text(o));
      ResultNext(done, o, was);
      done := done + [o];
    }
    assert Split(s) == done;
  }

  lemma NothingDone()
    ensures Rewritten([]) == [] && Result([]) == Null
  {
  }

  lemma RewrittenNext(done: seq<string>, o: string)
    ensures Rewritten(done + [o]) == Rewrite(Rewritten(done), o)
  {
    assert (done + [o])[..|done|] == done;
  }

  /** The result never holds an option together with its negation. */
  lemma {:induction false} NeverBoth(list: seq<string>, x: string, y: string)
    requires forall k :: 0 <= k < |list| ==> CommaFree(list[k])
    requires x in Rewritten(list) && y in Rewritten(list)
    ensures y != "no" + x
  {
    var o, before := list[|list| - 1], Rewritten(list[..|list| - 1]);
    RewrittenPlain(list[..|list| - 1]);
    RewrittenPlain(list);
    WithoutPlain(before, "no" + o);
    if StartsWithNo(o) {
      WithoutPlain(Without(before, "no" + o), o[2..]);
    }
    if x in before && y in before {
      NeverBoth(list[..|list| - 1], x, y);
    }
    assert ("no" + x)[2..] == x && x != "";
  }

  /** What `remopt` writes holds the kept tokens that are not empty. */
  lemma {:induction false} WrittenTokens(kept: seq<string>)
    requires forall k :: 0 <= k < |kept| ==> CommaFree(kept[k])
    ensures NonEmpty(Split(Written(kept))) == NonEmpty(kept)
  {
    hide Tokens;
    if kept == [] {
      SplitOne("");
      assert NonEmpty([""]) == NonEmpty([]);
    } else {
      hide Written, NonEmpty;
      var before, last := kept[..|kept| - 1], kept[|kept| - 1];
      WrittenTokens(before);
      SplitOne(last);
      assert kept == before + [last];
      WrittenNext(before, last);
      NonEmptyAppend(before, [last]);
      NonEmptyOne(last);
      if before == [] {
        assert kept == [last];
      } else {
        TokensConcat(Written(before), last, 0);
        NonEmptyAppend(Split(Written(before)), [last]);
        assert NonEmpty(before) + [] == NonEmpty(before);
      }
    }
  }

  lemma {:induction false} WithoutKeeps(list: seq<string>, opt: string)
    requires opt != ""
    ensures NonEmpty(Without(list, opt)) == Without(NonEmpty(list), opt)
    ensures forall k :: 0 <= k < |Without(list, opt)| ==> Without(list, opt)[k] in list
  {
    if list != [] {
      WithoutKeeps(list[1..], opt);
    }
  }

  /** Taking an option out of a string is filtering its comma-separated list. */
  lemma RemovedFilters(s: string, opt: string)
    requires opt != ""
    ensures NonEmpty(Split(Removed(s, opt))) == Without(NonEmpty(Split(s)), opt)
  {
    hide Tokens, Written;
    TokensAreCommaFree(s, 0);
    if s == "" {
      SplitOne("");
      NonEmptyOne("");
      assert Without([], opt) == [];
    } else {
      WithoutKeeps(Split(s), opt);
      WrittenTokens(Without(Split(s), opt));
    }
  }
}
