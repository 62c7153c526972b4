/**
 * The colour filter that every writer added to the logger sits behind: it
 * deletes SGR control sequences (ECMA-48 section 8.3.117), written as
 * `ESC '[' [0-9;]* 'm'`, before passing the bytes on. The filter replaces
 * every leftmost, non-overlapping match of that pattern by nothing, in one
 * pass from left to right. Each `char` here stands for one byte.
 */
module ColorFilter {

  /** The escape byte, `\x1b`. */
  const ESC: char := 27 as char

  /** The bytes the pattern allows between `ESC [` and the final `m`. */
  predicate IsParamChar(c: char) {
    '0' <= c <= '9' || c == ';'
  }

  predicate AllParams(p: string) {
    forall k :: 0 <= k < |p| ==> IsParamChar(p[k])
  }

  predicate NoEsc(s: string) {
    forall k :: 0 <= k < |s| ==> s[k] != ESC
  }

  /** An SGR sequence with the given parameter bytes. */
  function SgrText(params: string): string {
    [ESC, '['] + params + ['m']
  }

  /** How many parameter bytes `s` starts with: the greedy `[0-9;]*`. */
  function ParamRun(s: string): (n: nat)
    ensures n <= |s|
  {
    if s != [] && IsParamChar(s[0]) then 1 + ParamRun(s[1..]) else 0
  }

  /**
   * The length of the match of the pattern at the start of `s`, or 0 when
   * the pattern does not match there. Since `m` is not a parameter byte, the
   * greedy run is followed by `m` exactly when some match exists.
   */
  function MatchLen(s: string): (n: nat)
    ensures n == 0 || 3 <= n <= |s|
  {
    if |s| >= 2 && s[0] == ESC && s[1] == '[' then
      var r := ParamRun(s[2..]);
      if 2 + r < |s| && s[2 + r] == 'm' then 3 + r else 0
    else 0
  }

  /** `remove_symbol.ReplaceAll(bytes, []byte(""))`. */
  function Strip(s: string): (r: string)
    ensures |r| <= |s|
    decreases |s|
  {
    if s == [] then []
    else
      var n := MatchLen(s);
      if n > 0 then Strip(s[n..]) else [s[0]] + Strip(s[1..])
  }

  // ---------------------------------------------------------------------
  // The input as the filter sees it: kept bytes and deleted sequences
  // ---------------------------------------------------------------------

  datatype Token = Kept(c: char) | Escape(params: string)

  /** The input cut into the bytes the filter keeps and the sequences it deletes. */
  function Tokens(s: string): seq<Token>
    decreases |s|
  {
    if s == [] then []
    else
      var n := MatchLen(s);
      if n > 0 then [Escape(s[2..n - 1])] + Tokens(s[n..]) else [Kept(s[0])] + Tokens(s[1..])
  }

  /** The text the tokens are written as. */
  function Join(ts: seq<Token>): string {
    if ts == [] then []
    else (match ts[0] case Kept(c) => [c] case Escape(p) => SgrText(p)) + Join(ts[1..])
  }

  /** The kept bytes alone, in order. */
  function KeptText(ts: seq<Token>): string {
    if ts == [] then []
    else (match ts[0] case Kept(c) => [c] case Escape(_) => []) + KeptText(ts[1..])
  }

  /** Every deleted piece is an SGR sequence. */
  predicate EscapesAreSgr(ts: seq<Token>) {
    forall k :: 0 <= k < |ts| && ts[k].Escape? ==> AllParams(ts[k].params)
  }

  // ---------------------------------------------------------------------
  // Matching
  // ---------------------------------------------------------------------

  lemma {:induction false} ParamRunOf(p: string, rest: string)
    requires AllParams(p)
    requires rest == [] || !IsParamChar(rest[0])
    ensures ParamRun(p + rest) == |p|
  {
    if p != [] {
      assert (p + rest)[1..] == p[1..] + rest;
      ParamRunOf(p[1..], rest);
    } else {
      assert p + rest == rest;
    }
  }

  lemma {:induction false} ParamRunAll(s: string)
    ensures AllParams(s[..ParamRun(s)])
  {
    if s != [] && IsParamChar(s[0]) {
      ParamRunAll(s[1..]);
      assert s[..ParamRun(s)] == [s[0]] + s[1..][..ParamRun(s[1..])];
    }
  }

  /** The pattern matches an SGR sequence at the start, whatever follows it. */
  lemma MatchSgr(params: string, rest: string)
    requires AllParams(params)
    ensures MatchLen(SgrText(params) + rest) == |params| + 3
  {
    var s := SgrText(params) + rest;
    assert s[2..] == params + (['m'] + rest);
    ParamRunOf(params, ['m'] + rest);
    assert s[2 + |params|] == 'm';
  }

  /** What the pattern matches is an SGR sequence. */
  lemma MatchIsSgr(s: string)
    requires MatchLen(s) > 0
    ensures AllParams(s[2..MatchLen(s) - 1])
    ensures s[..MatchLen(s)] == SgrText(s[2..MatchLen(s) - 1])
  {
    var n := MatchLen(s);
    ParamRunAll(s[2..]);
    assert s[2..][..ParamRun(s[2..])] == s[2..n - 1];
    assert s[..n] == [s[0], s[1]] + s[2..n - 1] + [s[n - 1]];
  }

  // ---------------------------------------------------------------------
  // What the filter keeps and deletes
  // ---------------------------------------------------------------------

  /** An SGR sequence at the start is deleted. */
  lemma StripDropsSgr(params: string, rest: string)
    requires AllParams(params)
    ensures Strip(SgrText(params) + rest) == Strip(rest)
  {
    var s := SgrText(params) + rest;
    MatchSgr(params, rest);
    assert s[|params| + 3..] == rest;
  }

  /** A first byte other than ESC is kept. */
  lemma StripKeepsFirst(s: string)
    requires s != [] && s[0] != ESC
    ensures Strip(s) == [s[0]] + Strip(s[1..])
  {
    assert MatchLen(s) == 0;
  }

  lemma NoEscTail(a: string)
    requires a != [] && NoEsc(a)
    ensures a[0] != ESC && NoEsc(a[1..])
  {
    forall k | 0 <= k < |a[1..]|
      ensures a[1..][k] != ESC
    {
      assert a[1..][k] == a[k + 1];
    }
  }

  /** Text without ESC is passed through as it is, ahead of whatever follows. */
  lemma {:induction false} StripKeepsPlain(a: string, b: string)
    requires NoEsc(a)
    ensures Strip(a + b) == a + Strip(b)
  {
    if a != [] {
      var s := a + b;
      NoEscTail(a);
      assert s[0] == a[0];
      StripKeepsFirst(s);
      assert s[1..] == a[1..] + b;
      StripKeepsPlain(a[1..], b);
      assert [a[0]] + (a[1..] + Strip(b)) == a + Strip(b);
    } else {
      assert a + b == b;
    }
  }

  /** Input with no ESC byte is unchanged. */
  lemma StripNoEsc(s: string)
    requires NoEsc(s)
    ensures Strip(s) == s
  {
    StripKeepsPlain(s, []);
    assert s + [] == s;
  }

  lemma JoinCons(t: Token, ts: seq<Token>)
    ensures Join([t] + ts) == Join([t]) + Join(ts)
  {
    assert ([t] + ts)[0] == t;
    assert ([t] + ts)[1..] == ts;
    assert [t][1..] == [];
    assert Join([t]) == Join([t]) + [];
  }

  lemma EscapesCons(t: Token, ts: seq<Token>)
    requires t.Escape? ==> AllParams(t.params)
    requires EscapesAreSgr(ts)
    ensures EscapesAreSgr([t] + ts)
  {
    var all := [t] + ts;
    forall k | 0 <= k < |all| && all[k].Escape?
      ensures AllParams(all[k].params)
    {
      if k > 0 {
        assert all[k] == ts[k - 1];
      }
    }
  }

  /** The kept bytes put back together with the deleted sequences give the input. */
  lemma {:induction false} JoinTokens(s: string)
    ensures Join(Tokens(s)) == s
    decreases |s|
  {
    if s != [] {
      var n := MatchLen(s);
      if n > 0 {
        JoinTokens(s[n..]);
        JoinEscape(s, n);
      } else {
        JoinTokens(s[1..]);
        JoinKept(s);
      }
    }
  }

  lemma JoinEscape(s: string, n: nat)
    requires n == MatchLen(s) && n > 0
    requires Join(Tokens(s[n..])) == s[n..]
    ensures Join(Tokens(s)) == s
  {
    MatchIsSgr(s);
    var p := s[2..n - 1];
    var rest := s[n..];
    TokensEscape(s);
    JoinSgr(p, rest, Tokens(rest));
    SplitAt(s, n);
    assert Join(Tokens(s)) == SgrText(p) + rest;
  }

  lemma SplitAt(s: string, n: nat)
    requires n <= |s|
    ensures s == s[..n] + s[n..]
  {
  }

  lemma TokensEscape(s: string)
    requires MatchLen(s) > 0
    ensures Tokens(s) == [Escape(s[2..MatchLen(s) - 1])] + Tokens(s[MatchLen(s)..])
  {
  }

  lemma JoinSgr(p: string, rest: string, ts: seq<Token>)
    requires Join(ts) == rest
    ensures Join([Escape(p)] + ts) == SgrText(p) + rest
  {
    var t := Escape(p);
    JoinCons(t, ts);
    assert [t][1..] == [];
    assert Join([t]) == SgrText(p) + [];
    assert SgrText(p) + [] == SgrText(p);
  }

  lemma JoinKept(s: string)
    requires s != [] && MatchLen(s) == 0
    requires Join(Tokens(s[1..])) == s[1..]
    ensures Join(Tokens(s)) == s
  {
    var t := Kept(s[0]);
    assert Tokens(s) == [t] + Tokens(s[1..]);
    JoinCons(t, Tokens(s[1..]));
    assert Join([t]) == [s[0]] by {
      assert [t][1..] == [];
      assert [s[0]] + [] == [s[0]];
    }
    assert s == [s[0]] + s[1..];
  }

  /** Every piece the filter deletes is an SGR sequence. */
  lemma {:induction false} TokensSgr(s: string)
    ensures EscapesAreSgr(Tokens(s))
    decreases |s|
  {
    if s != [] {
      var n := MatchLen(s);
      if n > 0 {
        MatchIsSgr(s);
        TokensSgr(s[n..]);
        EscapesCons(Escape(s[2..n - 1]), Tokens(s[n..]));
      } else {
        TokensSgr(s[1..]);
        EscapesCons(Kept(s[0]), Tokens(s[1..]));
      }
    }
  }

  /** The filter's output is exactly the kept bytes, in their order. */
  lemma {:induction false} StripKeepsTokens(s: string)
    ensures Strip(s) == KeptText(Tokens(s))
    decreases |s|
  {
    if s != [] {
      var n := MatchLen(s);
      var ts := Tokens(s);
      if n > 0 {
        StripKeepsTokens(s[n..]);
        assert ts[1..] == Tokens(s[n..]);
        assert KeptText(ts) == [] + KeptText(ts[1..]);
      } else {
        StripKeepsTokens(s[1..]);
        assert ts[1..] == Tokens(s[1..]);
      }
    }
  }

  // ---------------------------------------------------------------------
  // Every match is deleted, and nothing else
  // ---------------------------------------------------------------------

  /**
   * A way of cutting text into pieces that a left-to-right scan for the
   * pattern could give: every deleted piece is an SGR sequence, and no kept
   * byte begins a match of the pattern.
   */
  predicate Leftmost(ts: seq<Token>) {
    && EscapesAreSgr(ts)
    && forall k :: 0 <= k < |ts| && ts[k].Kept? ==> MatchLen(Join(ts[k..])) == 0
  }

  /**
   * Text cut into such pieces filters to its kept bytes: each match the
   * scan meets is deleted, and every other byte survives.
   */
  lemma {:induction false} StripLeftmost(ts: seq<Token>)
    requires Leftmost(ts)
    ensures Strip(Join(ts)) == KeptText(ts)
    decreases |ts|
  {
    if ts != [] {
      var t, rest := ts[0], ts[1..];
      assert ts == [t] + rest;
      JoinCons(t, rest);
      LeftmostTail(ts);
      StripLeftmost(rest);
      match t
      case Kept(c) =>
        assert ts[0..] == ts;
        StripKept(c, Join(rest));
        assert Join([t]) == [c] by {
          assert [t][1..] == [];
          assert [c] + [] == [c];
        }
      case Escape(p) =>
        assert Join([t]) == SgrText(p) by {
          assert [t][1..] == [];
          assert SgrText(p) + [] == SgrText(p);
        }
        StripDropsSgr(p, Join(rest));
        assert KeptText(ts) == [] + KeptText(rest);
    }
  }

  lemma StripKept(c: char, rest: string)
    requires MatchLen([c] + rest) == 0
    ensures Strip([c] + rest) == [c] + Strip(rest)
  {
    assert ([c] + rest)[1..] == rest;
  }

  lemma LeftmostTail(ts: seq<Token>)
    requires ts != [] && Leftmost(ts)
    ensures Leftmost(ts[1..])
  {
    var rest := ts[1..];
    forall k | 0 <= k < |rest| && rest[k].Kept?
      ensures MatchLen(Join(rest[k..])) == 0
    {
      assert rest[k] == ts[k + 1];
      assert rest[k..] == ts[k + 1..];
    }
    forall k | 0 <= k < |rest| && rest[k].Escape?
      ensures AllParams(rest[k].params)
    {
      assert rest[k] == ts[k + 1];
    }
  }

  /** The filter's own cut of its input is such a cut. */
  lemma {:induction false} TokensLeftmost(s: string)
    ensures Leftmost(Tokens(s))
    decreases |s|
  {
    TokensSgr(s);
    if s != [] {
      var n := MatchLen(s);
      var next := if n > 0 then n else 1;
      var ts := Tokens(s);
      var rest := Tokens(s[next..]);
      assert ts == [ts[0]] + rest;
      TokensLeftmost(s[next..]);
      JoinTokens(s);
      forall k | 0 <= k < |ts| && ts[k].Kept?
        ensures MatchLen(Join(ts[k..])) == 0
      {
        if k == 0 {
          assert ts[0..] == ts;
        } else {
          assert ts[k] == rest[k - 1];
          assert ts[k..] == rest[k - 1..];
        }
      }
    }
  }

  /**
   * Text built from bytes other than ESC and from SGR sequences filters to
   * those bytes alone.
   */
  lemma PlainAndSgr(ts: seq<Token>)
    requires EscapesAreSgr(ts)
    requires forall k :: 0 <= k < |ts| && ts[k].Kept? ==> ts[k].c != ESC
    ensures Strip(Join(ts)) == KeptText(ts)
  {
    forall k | 0 <= k < |ts| && ts[k].Kept?
      ensures MatchLen(Join(ts[k..])) == 0
    {
      PlainAt(ts, k);
    }
    StripLeftmost(ts);
  }

  lemma PlainAt(ts: seq<Token>, k: nat)
    requires k < |ts| && ts[k].Kept? && ts[k].c != ESC
    ensures MatchLen(Join(ts[k..])) == 0
  {
    assert ts[k..] == [Kept(ts[k].c)] + ts[k + 1..];
    PlainNoMatch(ts[k].c, ts[k + 1..]);
  }

  lemma PlainNoMatch(c: char, rest: seq<Token>)
    requires c != ESC
    ensures MatchLen(Join([Kept(c)] + rest)) == 0
  {
    var t := Kept(c);
    JoinCons(t, rest);
    assert Join([t]) == [c] by {
      assert [t][1..] == [];
      assert [c] + [] == [c];
    }
    assert Join([t] + rest)[0] == c;
  }

  /**
   * One pass does not leave the output free of SGR sequences: deleting the
   * inner `ESC[0m` of `ESC[ESC[0mm` joins the outer bytes into `ESC[m`.
   */
  lemma StripNotIdempotent()
    ensures var s := [ESC, '[', ESC, '[', '0', 'm', 'm'];
      Strip(s) == SgrText("") && Strip(Strip(s)) == ""
  {
    var s := [ESC, '[', ESC, '[', '0', 'm', 'm'];
    assert s[2..][0] == ESC;
    assert MatchLen(s) == 0;
    assert s[1..][0] == '[';
    assert MatchLen(s[1..]) == 0;
    assert s[2..] == SgrText("0") + ['m'];
    StripDropsSgr("0", ['m']);
    StripNoEsc(['m']);
    assert Strip(s) == [ESC] + ['['] + ['m'];
    assert SgrText("") + [] == SgrText("");
    StripDropsSgr("", []);
  }
}
