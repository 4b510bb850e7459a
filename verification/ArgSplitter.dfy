/**
 Splitting a probe's argument string into single arguments: whitespace separates arguments except
 between square brackets.
 */
module ArgSplitter {
  import opened Regexes

  predicate IsSplitSpace(c: char) {
    c == ' ' || c == '\t' || c == '\n' || c == '\r'
  }

  /** Is position `i` inside brackets, that is, was the last bracket before it an opening one? */
  predicate InBracket(s: string, i: nat)
    requires i <= |s|
  {
    i > 0 && (s[i - 1] == '[' || (s[i - 1] != ']' && InBracket(s, i - 1)))
  }

  /** Does a separator stand at position `i`? */
  predicate SepAt(s: string, i: nat) {
    i < |s| && IsSplitSpace(s[i]) && !InBracket(s, i)
  }

  predicate Atomic(s: string) {
    forall i :: 0 <= i < |s| ==> !SepAt(s, i)
  }

  predicate Closed(s: string) {
    !InBracket(s, |s|)
  }

  predicate AllSplitSpace(s: string) {
    forall i :: 0 <= i < |s| ==> IsSplitSpace(s[i])
  }

  // ----- tokens -----

  /** Position of the first separator at or after `i`, or the end. */
  function TokenEnd(s: string, i: nat): (n: nat)
    requires i <= |s|
    ensures i <= n <= |s|
    ensures n < |s| ==> SepAt(s, n)
    ensures forall j :: i <= j < n ==> !SepAt(s, j)
    decreases |s| - i
  {
    if i == |s| || SepAt(s, i) then i else TokenEnd(s, i + 1)
  }

  function Tokens(s: string): seq<string>
    decreases |s|
  {
    if s == [] then []
    else if IsSplitSpace(s[0]) then Tokens(s[1..])
    else
      var n := TokenEnd(s, 0);
      [s[..n]] + Tokens(s[n..])
  }

  lemma {:induction false} InBracketPrefix(t: string, r: string, i: nat)
    requires i <= |t|
    ensures InBracket(t + r, i) == InBracket(t, i)
  {
    if i > 0 {
      InBracketPrefix(t, r, i - 1);
      assert (t + r)[i - 1] == t[i - 1];
    }
  }

  lemma SepPrefix(t: string, r: string, i: nat)
    requires i < |t|
    ensures SepAt(t + r, i) == SepAt(t, i)
  {
    InBracketPrefix(t, r, i);
    assert (t + r)[i] == t[i];
  }

  /** A token is cut off exactly where the first separator follows it. */
  lemma TokenSplit(t: string, r: string)
    requires t != [] && Atomic(t)
    requires r == [] || (Closed(t) && IsSplitSpace(r[0]))
    ensures Tokens(t + r) == [t] + Tokens(r)
  {
    var s := t + r;
    forall i | 0 <= i < |t| ensures !SepAt(s, i) {
      SepPrefix(t, r, i);
    }
    assert !SepAt(t, 0);
    assert TokenEnd(s, 0) == |t| by {
      if r != [] {
        InBracketPrefix(t, r, |t|);
        assert SepAt(s, |t|);
      }
    }
    assert s[..|t|] == t && s[|t|..] == r;
  }

  lemma {:induction false} TokensSkipSpace(g: string, r: string)
    requires AllSplitSpace(g)
    ensures Tokens(g + r) == Tokens(r)
  {
    if g == [] {
      assert g + r == r;
    } else {
      TokensSkipSpace(g[1..], r);
      assert (g + r)[1..] == g[1..] + r;
      assert IsSplitSpace((g + r)[0]);
    }
  }

  // ----- declarative tokenisation -----

  function Interleave(gaps: seq<string>, toks: seq<string>): string
    requires |gaps| == |toks| + 1
  {
    gaps[0] + if toks == [] then [] else toks[0] + Interleave(gaps[1..], toks[1..])
  }

  /** Tokens are non-empty and contain no separator; all but the last end outside brackets. */
  predicate AreTokens(toks: seq<string>) {
    && (forall i :: 0 <= i < |toks| ==> toks[i] != [] && Atomic(toks[i]))
    && (forall i :: 0 <= i < |toks| - 1 ==> Closed(toks[i]))
  }

  /** Gaps are whitespace, non-empty between tokens, and empty after an unclosed bracket. */
  predicate AreGaps(gaps: seq<string>, toks: seq<string>) {
    && |gaps| == |toks| + 1
    && (forall i :: 0 <= i < |gaps| ==> AllSplitSpace(gaps[i]))
    && (forall i :: 0 < i < |toks| ==> gaps[i] != [])
    && (toks != [] && !Closed(toks[|toks| - 1]) ==> gaps[|toks|] == [])
  }

  ghost predicate IsTokenisation(s: string, toks: seq<string>) {
    AreTokens(toks) && exists gaps :: AreGaps(gaps, toks) && s == Interleave(gaps, toks)
  }

  lemma TailsOfLayout(gaps: seq<string>, toks: seq<string>)
    requires toks != [] && AreTokens(toks) && AreGaps(gaps, toks)
    ensures AreTokens(toks[1..]) && AreGaps(gaps[1..], toks[1..])
  {
  }

  lemma {:induction false} LayoutTokens(gaps: seq<string>, toks: seq<string>)
    requires AreTokens(toks) && AreGaps(gaps, toks)
    ensures Tokens(Interleave(gaps, toks)) == toks
  {
    if toks == [] {
      TokensSkipSpace(gaps[0], []);
    } else {
      var r := Interleave(gaps[1..], toks[1..]);
      TailsOfLayout(gaps, toks);
      LayoutTokens(gaps[1..], toks[1..]);
      TokensSkipSpace(gaps[0], toks[0] + r);
      if r != [] {
        assert |toks| == 1 ==> r == gaps[1];
        assert gaps[1] != [] && r[0] == gaps[1][0];
      }
      TokenSplit(toks[0], r);
    }
  }

  lemma {:induction false} TokensLayout(s: string) returns (gaps: seq<string>)
    ensures AreTokens(Tokens(s)) && AreGaps(gaps, Tokens(s))
    ensures s == Interleave(gaps, Tokens(s))
    decreases |s|
  {
    if s == [] {
      gaps := [[]];
    } else if IsSplitSpace(s[0]) {
      var gs := TokensLayout(s[1..]);
      gaps := gs[0 := [s[0]] + gs[0]];
      WidenGap(s[0], gs, Tokens(s[1..]));
      assert s == [s[0]] + s[1..];
    } else {
      var n := TokenEnd(s, 0);
      var t := s[..n];
      var gs := TokensLayout(s[n..]);
      gaps := [[]] + gs;
      FirstToken(s);
      LayoutCons(t, gs, Tokens(s[n..]), s[n..]);
      assert s == t + s[n..];
    }
  }

  lemma WidenGap(c: char, gs: seq<string>, toks: seq<string>)
    requires IsSplitSpace(c) && AreGaps(gs, toks)
    ensures AreGaps(gs[0 := [c] + gs[0]], toks)
    ensures Interleave(gs[0 := [c] + gs[0]], toks) == [c] + Interleave(gs, toks)
  {
  }

  /** The first token of a text that does not start with a space. */
  lemma FirstToken(s: string)
    requires s != [] && !IsSplitSpace(s[0])
    ensures var n := TokenEnd(s, 0);
      0 < n && Atomic(s[..n]) && (n < |s| ==> Closed(s[..n]) && IsSplitSpace(s[n]))
  {
    var n := TokenEnd(s, 0);
    var t := s[..n];
    assert s == t + s[n..];
    forall i | 0 <= i < n ensures !SepAt(t, i) {
      SepPrefix(t, s[n..], i);
    }
    InBracketPrefix(t, s[n..], n);
  }

  lemma LayoutCons(t: string, gs: seq<string>, ts: seq<string>, r: string)
    requires t != [] && Atomic(t) && AreTokens(ts) && AreGaps(gs, ts) && r == Interleave(gs, ts)
    requires r != [] ==> Closed(t) && IsSplitSpace(r[0])
    ensures AreTokens([t] + ts) && AreGaps([[]] + gs, [t] + ts)
    ensures Interleave([[]] + gs, [t] + ts) == t + r
  {
    var toks, gaps := [t] + ts, [[]] + gs;
    assert toks[1..] == ts && gaps[1..] == gs;
    if ts != [] {
      assert !SepAt(ts[0], 0);
      assert r[0] == (gs[0] + ts[0])[0];
    }
    assert forall i :: 0 < i < |toks| ==> toks[i] == ts[i - 1];
    assert forall i :: 0 < i < |gaps| ==> gaps[i] == gs[i - 1];
    if ts == [] {
      assert r == gs[0];
    } else {
      assert r != [];
    }
  }

  /** `Tokens` is the one tokenisation of the text: soundness, completeness and uniqueness. */
  lemma TokensExact(s: string, toks: seq<string>)
    ensures IsTokenisation(s, toks) <==> toks == Tokens(s)
  {
    var gaps := TokensLayout(s);
    if IsTokenisation(s, toks) {
      var gs :| AreGaps(gs, toks) && s == Interleave(gs, toks);
      LayoutTokens(gs, toks);
    }
  }

  /**
   Space, tab, newline and carriage return separate, and no other character does; behind an opening
   bracket none does.
   */
  lemma SeparatorsExactly(x: char, c: char, y: char)
    requires x !in " \t\n\r[" && y !in " \t\n\r"
    ensures c in " \t\n\r" ==> Tokens([x, c, y]) == [[x], [y]]
    ensures c !in " \t\n\r" ==> Tokens([x, c, y]) == [[x, c, y]]
    ensures Tokens(['[', c, y]) == [['[', c, y]]
  {
    if c in " \t\n\r" {
      assert x != " \t\n\r["[4] && !InBracket([x], 0);
      assert Closed([x]);
      TokenSplit([x], [c, y]);
      assert [x] + [c, y] == [x, c, y];
      TokensSkipSpace([c], [y]);
      assert [c] + [y] == [c, y];
      TokenSplit([y], []);
      assert [y] + [] == [y];
    } else {
      WholeToken([x, c, y]);
    }
    assert InBracket(['[', c, y], 1);
    WholeToken(['[', c, y]);
  }

  lemma WholeToken(s: string)
    requires s != [] && Atomic(s)
    ensures Tokens(s) == [s]
  {
    TokenSplit(s, []);
    assert s + [] == s;
  }

  // ----- the splitter -----

  /** The text without its separators. */
  function Kept(s: string): string {
    if s == [] then []
    else Kept(s[..|s| - 1]) + if SepAt(s, |s| - 1) then [] else [s[|s| - 1]]
  }

  lemma AtomicSnoc(t: string, c: char)
    requires Atomic(t) && (IsSplitSpace(c) ==> !Closed(t))
    ensures Atomic(t + [c])
    ensures Closed(t + [c]) <==> c == ']' || (c != '[' && Closed(t))
  {
    var u := t + [c];
    InBracketPrefix(t, [c], |t|);
    forall i | 0 <= i < |u| ensures !SepAt(u, i) {
      if i < |t| {
        SepPrefix(t, [c], i);
      }
    }
  }

  lemma KeptSnoc(s: string, i: nat)
    requires i < |s|
    ensures Kept(s[..i + 1]) == Kept(s[..i]) + if SepAt(s, i) then [] else [s[i]]
  {
    var t := s[..i + 1];
    assert s == t + s[i + 1..] && t[..i] == s[..i];
    SepPrefix(t, s[i + 1..], i);
  }

  lemma EndToken(t: string, c: char, rest: string)
    requires Atomic(t) && Closed(t) && IsSplitSpace(c)
    ensures Tokens(t + ([c] + rest)) == (if t == [] then [] else [t]) + Tokens(rest)
  {
    TokensSkipSpace([c], rest);
    if t == [] {
      assert t + ([c] + rest) == [c] + rest;
    } else {
      TokenSplit(t, [c] + rest);
    }
  }

  /** What the splitter knows after `i` characters, with `args` cut off and `current` being built. */
  ghost predicate Scanned(s: string, i: nat, args: seq<string>, current: string) {
    && i <= |s|
    && Atomic(current)
    && Closed(current) == !InBracket(s, i)
    && Tokens(s) == args + Tokens(current + s[i..])
    && Concat(args) + current == Kept(s[..i])
  }

  lemma KeepStep(s: string, i: nat, args: seq<string>, current: string)
    requires i < |s| && Scanned(s, i, args, current) && !SepAt(s, i)
    ensures Scanned(s, i + 1, args, current + [s[i]])
  {
    KeptSnoc(s, i);
    AtomicSnoc(current, s[i]);
    assert current + s[i..] == current + [s[i]] + s[i + 1..];
  }

  lemma CutStep(s: string, i: nat, args: seq<string>, current: string)
    requires i < |s| && Scanned(s, i, args, current) && SepAt(s, i)
    ensures Scanned(s, i + 1, if current == [] then args else args + [current], [])
  {
    var rest := s[i + 1..];
    KeptSnoc(s, i);
    assert s[i..] == [s[i]] + rest && [] + rest == rest;
    EndToken(current, s[i], rest);
    if current != [] {
      CutToken(args, current, Tokens(rest));
    }
  }

  lemma CutToken(args: seq<string>, t: string, more: seq<string>)
    ensures args + ([t] + more) == args + [t] + more
    ensures Concat(args + [t]) + [] == Concat(args) + t
  {
    ConcatSnoc(args, t);
  }

  /**
   The one-pass splitter: a builder for the current argument and one bracket flag. It computes the
   tokenisation, and loses no character but the separators.
   */
  method SplitUSDTArgs(s: string) returns (args: seq<string>)
    ensures args == Tokens(s)
    ensures Concat(args) == Kept(s)
  {
    args := [];
    var current: string := [];
    var inBrackets := false;
    assert [] + s[0..] == s;
    for i := 0 to |s|
      invariant inBrackets == InBracket(s, i)
      invariant Scanned(s, i, args, current)
    {
      var ch := s[i];
      match ch
      case '[' =>
        KeepStep(s, i, args, current);
        inBrackets := true;
        current := current + [ch];
      case ']' =>
        KeepStep(s, i, args, current);
        inBrackets := false;
        current := current + [ch];
      case ' ' | '\t' | '\n' | '\r' =>
        if inBrackets {
          KeepStep(s, i, args, current);
          current := current + [ch];
        } else {
          CutStep(s, i, args, current);
          if |current| > 0 {
            args := args + [current];
            current := [];
          }
        }
      case _ =>
        KeepStep(s, i, args, current);
        current := current + [ch];
    }
    assert s[..|s|] == s && current + s[|s|..] == current + [];
    if |current| > 0 {
      TokenSplit(current, []);
      ConcatSnoc(args, current);
      args := args + [current];
    }
  }

  // ----- joining -----

  /** Blank-separated gaps: none before the first and after the last token. */
  function BlankGaps(n: nat): (gaps: seq<string>)
    ensures |gaps| == n + 1
    ensures forall i :: 0 <= i <= n ==> gaps[i] == if 0 < i < n then " " else []
  {
    seq(n + 1, i => if 0 < i < n then " " else [])
  }

  function JoinBlanks(toks: seq<string>): string {
    Interleave(BlankGaps(|toks|), toks)
  }

  /** Splitting the blank-joined tokens of any text gives the same tokens again. */
  lemma SplitJoin(s: string)
    ensures Tokens(JoinBlanks(Tokens(s))) == Tokens(s)
  {
    var _ := TokensLayout(s);
    LayoutTokens(BlankGaps(|Tokens(s)|), Tokens(s));
  }
}
