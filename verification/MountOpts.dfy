/** Comma-separated mount options: removing an option in place, rewriting a list, and what a list means. */
module MountOpts {

  const NUL := '\0'

  // ---------------------------------------------------------------- lists and strings

  /** Where the token that starts at `p` ends. */
  function TokenEnd(s: string, p: nat): (e: nat)
    requires p <= |s|
    ensures p <= e <= |s|
    decreases |s| - p
  {
    if p == |s| || s[p] == ',' then p else TokenEnd(s, p + 1)
  }

  /** The tokens from position `p` on: what `strsep` delivers. */
  function Tokens(s: string, p: nat): (r: seq<string>)
    requires p <= |s|
    ensures |r| > 0
    decreases |s| - p
  {
    var e := TokenEnd(s, p);
    if e == |s| then [s[p..]] else [s[p..e]] + Tokens(s, e + 1)
  }

  function Split(s: string): seq<string> {
    Tokens(s, 0)
  }

  function Without(list: seq<string>, opt: string): (r: seq<string>)
    ensures |r| <= |list|
  {
    if list == [] then []
    else if list[0] == opt then Without(list[1..], opt)
    else [list[0]] + Without(list[1..], opt)
  }

  lemma {:induction false} WithoutAppend(a: seq<string>, b: seq<string>, opt: string)
    ensures Without(a + b, opt) == Without(a, opt) + Without(b, opt)
  {
    if a == [] {
      assert a + b == b;
    } else {
      assert (a + b)[1..] == a[1..] + b;
      WithoutAppend(a[1..], b, opt);
    }
  }

  /** The string that `remopt` writes for the tokens it keeps: behind the first one, empty tokens vanish. */
  function Written(kept: seq<string>): string {
    if kept == [] then ""
    else
      var before, last := kept[..|kept| - 1], kept[|kept| - 1];
      if before == [] then last
      else if last == "" then Written(before)
      else Written(before) + "," + last
  }

  lemma WrittenNext(kept: seq<string>, o: string)
    ensures Written(kept + [o]) ==
      if kept == [] then o else if o == "" then Written(kept) else Written(kept) + "," + o
  {
    assert (kept + [o])[..|kept|] == kept;
  }

  /** The C string that starts a buffer. */
  function StrLen(m: seq<char>, p: nat): (e: nat)
    requires p <= |m|
    ensures p <= e <= |m|
    decreases |m| - p
  {
    if p == |m| || m[p] == NUL then p else StrLen(m, p + 1)
  }

  function Str(m: seq<char>): string {
    m[..StrLen(m, 0)]
  }

  predicate IsString(s: string) {
    forall i :: 0 <= i < |s| ==> s[i] != NUL
  }

  lemma {:induction false} StrLenIs(m: seq<char>, p: nat, e: nat)
    requires p <= e < |m| && m[e] == NUL && forall i :: p <= i < e ==> m[i] != NUL
    ensures StrLen(m, p) == e
    decreases e - p
  {
    if p < e {
      StrLenIs(m, p + 1, e);
    }
  }

  lemma {:induction false} StrLenFinds(m: seq<char>, p: nat)
    requires p <= |m|
    ensures forall i :: p <= i < StrLen(m, p) ==> m[i] != NUL
    ensures StrLen(m, p) < |m| ==> m[StrLen(m, p)] == NUL
    decreases |m| - p
  {
    if p < |m| && m[p] != NUL {
      StrLenFinds(m, p + 1);
    }
  }

  lemma {:induction false} TokenEndFinds(s: string, p: nat)
    requires p <= |s|
    ensures forall i :: p <= i < TokenEnd(s, p) ==> s[i] != ','
    ensures TokenEnd(s, p) < |s| ==> s[TokenEnd(s, p)] == ','
    decreases |s| - p
  {
    if p < |s| && s[p] != ',' {
      TokenEndFinds(s, p + 1);
    }
  }

  // ---------------------------------------------------------------- remopt, in place

  /** `strsep` on the rest of the string `s`, which starts at `p`: end the token there, and find the next. */
  method Strsep(buf: array<char>, p: nat, ghost s: string) returns (next: int)
    requires p <= |s| < buf.Length && IsString(s)
    requires forall i :: p <= i < |s| ==> buf[i] == s[i]
    requires buf[|s|] == NUL
    modifies buf
    ensures var e := TokenEnd(s, p);
      && next == (if e == |s| then -1 else e + 1)
      && buf[..] == old(buf[..])[e := NUL]
  {
    var e := p;
    while buf[e] != NUL && buf[e] != ','
      invariant p <= e <= |s| && TokenEnd(s, e) == TokenEnd(s, p) && buf[..] == old(buf[..])
      decreases |s| - e
    {
      e := e + 1;
    }
    if buf[e] == NUL {
      next := -1;
    } else {
      buf[e] := NUL;
      next := e + 1;
    }
  }

  /** Copy the token at `o` down to `r`; the result is where it ends there. */
  method CopyDown(buf: array<char>, r0: nat, o0: nat, ghost e: nat) returns (r: nat)
    requires r0 <= o0 <= e < buf.Length && buf[e] == NUL && forall i :: o0 <= i < e ==> buf[i] != NUL
    modifies buf
    ensures r == r0 + (e - o0)
    ensures buf[..] == Moved(old(buf[..]), r0, o0, e)
  {
    hide Moved;
    r := r0;
    var o := o0;
    ghost var was := buf[..];
    while buf[o] != NUL
      invariant r <= o <= e && r - r0 == o - o0
      invariant forall i :: r0 <= i < r ==> buf[i] == was[i - r0 + o0]
      invariant forall i :: 0 <= i < r0 || r <= i < buf.Length ==> buf[i] == was[i]
      decreases e - o
    {
      buf[r] := buf[o];
      r := r + 1;
      o := o + 1;
    }
    buf[r] := buf[o];
    buf[r] := ',';
    MovedFrom(was, buf[..], r0, o0, e);
  }

  lemma MovedFrom(m: seq<char>, m': seq<char>, r: nat, o: nat, e: nat)
    requires r <= o <= e < |m| == |m'| && m'[r + (e - o)] == ','
    requires forall i :: r <= i < r + (e - o) ==> m'[i] == m[i - r + o]
    requires forall i :: 0 <= i < r || r + (e - o) < i < |m| ==> m'[i] == m[i]
    ensures m' == Moved(m, r, o, e)
  {
  }

  /** Positions `o` up to `e` of a buffer, moved down to `r` and ended by a comma. */
  function Moved(m: seq<char>, r: nat, o: nat, e: nat): (m': seq<char>)
    requires r <= o <= e < |m|
    ensures |m'| == |m|
  {
    var n := e - o;
    seq(|m|, i requires 0 <= i < |m| => if r <= i < r + n then m[i - r + o] else if i == r + n then ',' else m[i])
  }

  /** The state of `remopt` when the tokens before `p` have been read: `kept` is written, up to `r`, and the
      string `s` is still there from `p` on. */
  ghost predicate Progress(s: string, m: seq<char>, r: nat, p: int, kept: seq<string>) {
    && IsString(s) && -1 <= p <= |s| < |m| && r <= |s| && (p >= 0 ==> r < p || p == 0)
    && (p >= 0 ==> m[|s|] == NUL && forall i :: p <= i < |s| ==> m[i] == s[i])
    && m[..r] == Written(kept) && IsString(m[..r])
    && (if kept == [] then r == 0 && (p == 0 || m[0] != ',') else m[r] == ',' && p != 0)
  }

  function After(s: string, p: nat): int
    requires p <= |s|
  {
    var e := TokenEnd(s, p);
    if e == |s| then -1 else e + 1
  }

  lemma Skip(s: string, m: seq<char>, r: nat, p: nat, kept: seq<string>)
    requires p <= |s| && Progress(s, m, r, p, kept) && s[p..TokenEnd(s, p)] != ""
    ensures Progress(s, m[TokenEnd(s, p) := NUL], r, After(s, p), kept)
  {
    hide Written;
    TokenEndFinds(s, p);
    var m' := m[TokenEnd(s, p) := NUL];
    assert m'[..r] == m[..r];
  }

  /** A comma stands behind what is kept, if anything is; it is put between two tokens. */
  lemma Separate(s: string, m: seq<char>, r: nat, p: nat, kept: seq<string>)
    requires p <= |s| && Progress(s, m, r, p, kept)
    ensures var e := TokenEnd(s, p);
      var m1 := m[e := NUL];
      var r1 := if m1[r] == ',' && m1[p] != NUL then r + 1 else r;
      && r1 <= p && m1[e] == NUL && (forall i :: p <= i < e ==> m1[i] != NUL) && m1[p..e] == s[p..e]
      && m1[..r1] + s[p..e] == Written(kept + [s[p..e]])
  {
    hide Written;
    TokenEndFinds(s, p);
    var e := TokenEnd(s, p);
    var m1 := m[e := NUL];
    var r1 := if m1[r] == ',' && m1[p] != NUL then r + 1 else r;
    assert m1[r] == ',' <==> kept != [];
    assert m1[p] != NUL <==> p < e;
    Unchanged(s, m, r, p, kept);
    assert m1[..r] == m[..r];
    assert r1 == r + 1 ==> m1[..r1] == m1[..r] + ",";
    WrittenNext(kept, s[p..e]);
    assert kept == [] ==> m1[..r1] == "";
  }

  /** The token is moved down behind what is kept. */
  lemma Keep(s: string, m: seq<char>, r: nat, p: nat, kept: seq<string>)
    requires p <= |s| && Progress(s, m, r, p, kept)
    ensures var e := TokenEnd(s, p);
      var m1 := m[e := NUL];
      var r1 := if m1[r] == ',' && m1[p] != NUL then r + 1 else r;
      && r1 <= p && m1[e] == NUL && (forall i :: p <= i < e ==> m1[i] != NUL)
      && Progress(s, Moved(m1, r1, p, e), r1 + (e - p), After(s, p), kept + [s[p..e]])
  {
    hide Written, Moved;
    Separate(s, m, r, p, kept);
    var e := TokenEnd(s, p);
    var m1 := m[e := NUL];
    var r1 := if m1[r] == ',' && m1[p] != NUL then r + 1 else r;
    MovedIs(m1, r1, p, e);
    TokenIsString(s, p, e);
    WrittenString(kept, s[p..e]);
  }

  lemma TokenIsString(s: string, p: nat, e: nat)
    requires p <= e <= |s| && IsString(s)
    ensures IsString(s[p..e])
  {
  }

  lemma WrittenString(kept: seq<string>, o: string)
    requires IsString(Written(kept)) && IsString(o)
    ensures IsString(Written(kept + [o]))
  {
    hide Written;
    WrittenNext(kept, o);
    var w := Written(kept) + "," + o;
    forall i | 0 <= i < |w| ensures w[i] != NUL {
      if i > |Written(kept)| {
        assert w[i] == o[i - |Written(kept)| - 1];
      }
    }
  }

  lemma MovedIs(m: seq<char>, r: nat, o: nat, e: nat)
    requires r <= o <= e < |m|
    ensures var m' := Moved(m, r, o, e);
      && m'[..r + (e - o)] == m[..r] + m[o..e] && m'[r + (e - o)] == ','
      && forall i :: e < i < |m| ==> m'[i] == m[i]
  {
  }

  /** Read the token at `o` and keep it unless it is `opt`. */
  method FilterToken(buf: array<char>, opt: string, ghost s: string, r0: nat, o: nat, ghost kept0: seq<string>)
      returns (r: nat, p: int, ghost kept: seq<string>)
    requires o <= |s| < buf.Length && Progress(s, buf[..], r0, o, kept0) && opt != ""
    modifies buf
    ensures p == After(s, o) && Progress(s, buf[..], r, p, kept)
    ensures var token := s[o..TokenEnd(s, o)]; kept == if token == opt then kept0 else kept0 + [token]
  {
    hide Written, Moved;
    r, kept := r0, kept0;
    ghost var was, e := buf[..], TokenEnd(s, o);
    Keep(s, was, r, o, kept);
    p := Strsep(buf, o, s);
    var token := ReadToken(buf, o, e);
    assert token == s[o..e] by {
      Unchanged(s, was, r, o, kept);
    }
    if token != opt {
      if buf[r] == ',' && buf[o] != NUL {
        r := r + 1;
      }
      r := CopyDown(buf, r, o, e);
      kept := kept + [token];
    } else {
      Skip(s, was, r, o, kept);
    }
  }

  lemma Unchanged(s: string, m: seq<char>, r: nat, p: nat, kept: seq<string>)
    requires p <= |s| && Progress(s, m, r, p, kept)
    ensures var e := TokenEnd(s, p); m[e := NUL][p..e] == s[p..e]
  {
  }

  /** What is still to be read. */
  function Rest(s: string, p: int): seq<string>
    requires p <= |s|
  {
    if p >= 0 then Tokens(s, p) else []
  }

  /** `remopt`: take every token that is `opt` out of the string in `buf`. */
  method Remopt(buf: array<char>, opt: string)
    requires StrLen(buf[..], 0) < buf.Length
    modifies buf
    ensures StrLen(buf[..], 0) < buf.Length
    ensures Str(buf[..]) == Removed(Str(old(buf[..])), opt)
  {
    hide Written, Without, Progress, Tokens;
    ghost var s := Str(buf[..]);
    StrLenFinds(buf[..], 0);
    if buf[0] == NUL || opt == "" {
      return;
    }
    var r: nat, p: int := 0, 0;
    ghost var kept: seq<string> := [];
    Start(s, buf[..]);
    while p >= 0
      invariant -1 <= p <= |s| && Progress(s, buf[..], r, p, kept)
      invariant Without(Split(s), opt) == kept + Without(Rest(s, p), opt)
      decreases if p >= 0 then |s| + 1 - p else 0
    {
      NextToken(s, p, opt, kept);
      r, p, kept := FilterToken(buf, opt, s, r, p, kept);
    }
    NothingLeft(opt);
    assert kept + [] == kept;
    Finish(s, buf[..], r, kept);
    ghost var last := buf[..];
    buf[r] := NUL;
    assert buf[..] == last[r := NUL];
  }

  lemma Start(s: string, m: seq<char>)
    requires |s| < |m| && m[..|s|] == s && m[|s|] == NUL && IsString(s)
    ensures Progress(s, m, 0, 0, [])
  {
  }

  lemma NothingLeft(opt: string)
    ensures Without([], opt) == []
  {
  }

  lemma Finish(s: string, m: seq<char>, r: nat, kept: seq<string>)
    requires Progress(s, m, r, -1, kept)
    ensures r < |m| && var m' := m[r := NUL]; StrLen(m', 0) == r && Str(m') == Written(kept)
  {
    var m' := m[r := NUL];
    assert m'[..r] == m[..r];
    assert forall i :: 0 <= i < r ==> m'[i] == m[..r][i];
    StrLenIs(m', 0, r);
  }

  lemma NextToken(s: string, p: nat, opt: string, kept: seq<string>)
    requires p <= |s|
    ensures var e := TokenEnd(s, p);
      kept + Without(Tokens(s, p), opt)
      == (if s[p..e] == opt then kept else kept + [s[p..e]]) + Without(Rest(s, After(s, p)), opt)
  {
    var e := TokenEnd(s, p);
    assert s[p..e] == s[p..] || e < |s|;
    assert Tokens(s, p) == [s[p..e]] + Rest(s, After(s, p));
    WithoutAppend([s[p..e]], Rest(s, After(s, p)), opt);
  }

  method ReadToken(buf: array<char>, o: nat, ghost e: nat) returns (token: string)
    requires o <= e < buf.Length && buf[e] == NUL && forall i :: o <= i < e ==> buf[i] != NUL
    ensures token == buf[o..e]
  {
    var i := o;
    while buf[i] != NUL
      invariant o <= i <= e
      decreases e - i
    {
      i := i + 1;
    }
    token := buf[o..i];
  }

  /** The string that is left when the option `opt` has been taken out of `s`. */
  function Removed(s: string, opt: string): string {
    if s == "" || opt == "" then s else Written(Without(Split(s), opt))
  }
}
