/**
 Anchored regular expressions that are concatenations of simple elements. A pattern has a
 declarative meaning (`Matches`) and a greedy left-to-right recogniser (`Run`); the two are proved
 to agree on every deterministic pattern, so a match, if there is one, is unique.
 */
module Regexes {
  import opened Wrappers
  import opened Text

  /** `Star` is `[...]*`, `Plus` is `[...]+`, `Num` is `-?\d+`, `Opt` is `c?`, `Lit` is `c`. */
  datatype Elem = Star(cc: CharClass) | Plus(cc: CharClass) | Num | Opt(c: char) | Lit(c: char)

  datatype Regex = End | Then(head: Elem, tail: Regex)

  // ----- declarative meaning -----

  predicate Fits(e: Elem, t: string) {
    match e
    case Star(cc) => AllIn(cc, t)
    case Plus(cc) => AllIn(cc, t) && t != []
    case Num => IsNumeral(t)
    case Opt(c) => t == [] || t == [c]
    case Lit(c) => t == [c]
  }

  /** The pieces, in order, fit the elements and make up the whole of `s`. */
  predicate Matches(re: Regex, s: string, pieces: seq<string>) {
    match re
    case End => s == [] && pieces == []
    case Then(e, tail) =>
      && pieces != []
      && pieces[0] <= s
      && Fits(e, pieces[0])
      && Matches(tail, s[|pieces[0]|..], pieces[1..])
  }

  function Length(re: Regex): nat {
    if re.End? then 0 else 1 + Length(re.tail)
  }

  // ----- recogniser -----

  /** Length of the greedy piece for `e` at the front of `s`. */
  function Greedy(e: Elem, s: string): (r: Option<nat>)
    ensures r.Some? ==> r.value <= |s| && Fits(e, s[..r.value])
  {
    match e
    case Star(cc) => Some(Span(cc, s))
    case Plus(cc) => if Span(cc, s) == 0 then None else Some(Span(cc, s))
    case Num =>
      var sign := if s != [] && s[0] == '-' then 1 else 0;
      var n := Span(Digit, s[sign..]);
      assert s[..sign + n][sign..] == s[sign..][..n];
      if n == 0 then None else Some(sign + n)
    case Opt(c) => if s != [] && s[0] == c then Some(1) else Some(0)
    case Lit(c) => if s != [] && s[0] == c then Some(1) else None
  }

  function Run(re: Regex, s: string): (r: Option<seq<string>>)
    ensures r.Some? ==> |r.value| == Length(re)
  {
    match re
    case End => if s == [] then Some([]) else None
    case Then(e, tail) =>
      match Greedy(e, s)
      case None => None
      case Some(n) =>
        match Run(tail, s[n..])
        case None => None
        case Some(pieces) => Some([s[..n]] + pieces)
  }

  lemma {:induction false} RunSound(re: Regex, s: string)
    ensures Run(re, s).Some? ==> Matches(re, s, Run(re, s).value)
  {
    if re.Then? && Greedy(re.head, s).Some? {
      var n := Greedy(re.head, s).value;
      RunSound(re.tail, s[n..]);
      if Run(re, s).Some? {
        assert Run(re, s).value[1..] == Run(re.tail, s[n..]).value;
      }
    }
  }

  // ----- determinism -----

  /** Can a piece for `e` start with `c`? */
  predicate Starts(e: Elem, c: char) {
    match e
    case Star(cc) => InClass(cc, c)
    case Plus(cc) => InClass(cc, c)
    case Num => c == '-' || InClass(Digit, c)
    case Opt(d) => c == d
    case Lit(d) => c == d
  }

  /** Could the greedy recogniser for `e` swallow a `c` that follows a piece of `e`? */
  predicate Extends(e: Elem, c: char) {
    match e
    case Star(cc) => InClass(cc, c)
    case Plus(cc) => InClass(cc, c)
    case Num => InClass(Digit, c)
    case Opt(d) => c == d
    case Lit(_) => false
  }

  predicate First(re: Regex, c: char)
    decreases re
  {
    re.Then? && (Starts(re.head, c) || ((re.head.Star? || re.head.Opt?) && First(re.tail, c)))
  }

  ghost predicate Deterministic(re: Regex) {
    re.Then? ==> (forall c :: First(re.tail, c) ==> !Extends(re.head, c)) && Deterministic(re.tail)
  }

  lemma {:induction false} MatchStarts(re: Regex, s: string, pieces: seq<string>)
    requires Matches(re, s, pieces) && s != []
    ensures First(re, s[0])
  {
    if pieces[0] == [] {
      MatchStarts(re.tail, s, pieces[1..]);
    } else {
      assert s[0] == pieces[0][0];
    }
  }

  lemma GreedyUnique(e: Elem, t: string, rest: string)
    requires Fits(e, t)
    requires rest == [] || !Extends(e, rest[0])
    ensures Greedy(e, t + rest) == Some(|t|)
  {
    match e
    case Star(cc) => SpanUnique(cc, t, rest);
    case Plus(cc) => SpanUnique(cc, t, rest);
    case Num =>
      var sign := if t[0] == '-' then 1 else 0;
      assert (t + rest)[sign..] == t[sign..] + rest;
      SpanUnique(Digit, t[sign..], rest);
    case Opt(c) =>
    case Lit(c) =>
  }

  /** On a deterministic pattern the recogniser finds the match, and it is the only one. */
  lemma {:induction false} RunComplete(re: Regex, s: string, pieces: seq<string>)
    requires Deterministic(re) && Matches(re, s, pieces)
    ensures Run(re, s) == Some(pieces)
  {
    if re.Then? {
      var rest := s[|pieces[0]|..];
      if rest != [] {
        MatchStarts(re.tail, rest, pieces[1..]);
      }
      assert s == pieces[0] + rest;
      GreedyUnique(re.head, pieces[0], rest);
      RunComplete(re.tail, rest, pieces[1..]);
      assert pieces == [pieces[0]] + pieces[1..];
    }
  }

  // Determinism is established from the end of a pattern towards its front.

  lemma Prepend(e: Elem, tail: Regex)
    requires Deterministic(tail)
    requires forall c :: First(tail, c) ==> !Extends(e, c)
    ensures Deterministic(Then(e, tail))
  {
  }

  // ----- pieces -----

  function Concat(pieces: seq<string>): string {
    if pieces == [] then [] else pieces[0] + Concat(pieces[1..])
  }

  function Elems(re: Regex): (es: seq<Elem>)
    ensures |es| == Length(re)
  {
    if re.End? then [] else [re.head] + Elems(re.tail)
  }

  ghost predicate FitsAll(re: Regex, pieces: seq<string>) {
    |pieces| == Length(re) && forall i :: 0 <= i < |pieces| ==> Fits(Elems(re)[i], pieces[i])
  }

  lemma FitsAllTail(re: Regex, pieces: seq<string>)
    requires re.Then? && pieces != []
    ensures FitsAll(re, pieces) <==> Fits(re.head, pieces[0]) && FitsAll(re.tail, pieces[1..])
  {
  }

  /** `Matches` without recursion: one fitting piece per element, and the pieces spell the text. */
  lemma {:induction false} MatchesMeaning(re: Regex, s: string, pieces: seq<string>)
    ensures Matches(re, s, pieces) <==> FitsAll(re, pieces) && s == Concat(pieces)
  {
    if re.Then? && pieces != [] {
      var t, rest := pieces[0], pieces[1..];
      FitsAllTail(re, pieces);
      if t <= s {
        assert s == t + s[|t|..];
        MatchesMeaning(re.tail, s[|t|..], rest);
        assert s == Concat(pieces) <==> s[|t|..] == Concat(rest);
      }
    }
  }

  lemma {:induction false} ConcatInsertEmpty(pieces: seq<string>, k: nat)
    requires k <= |pieces|
    ensures Concat(pieces[..k] + [[]] + pieces[k..]) == Concat(pieces)
  {
    var alt := pieces[..k] + [[]] + pieces[k..];
    if k == 0 {
      assert alt[1..] == pieces;
    } else {
      ConcatInsertEmpty(pieces[1..], k - 1);
      assert alt[1..] == pieces[1..][..k - 1] + [[]] + pieces[1..][k - 1..];
    }
  }

  lemma {:induction false} ConcatAppend(a: seq<string>, b: seq<string>)
    ensures Concat(a + b) == Concat(a) + Concat(b)
  {
    if a == [] {
      assert a + b == b;
    } else {
      ConcatAppend(a[1..], b);
      assert (a + b)[0] == a[0] && (a + b)[1..] == a[1..] + b;
      assert a[0] + (Concat(a[1..]) + Concat(b)) == a[0] + Concat(a[1..]) + Concat(b);
    }
  }

  lemma ConcatSnoc(pieces: seq<string>, t: string)
    ensures Concat(pieces + [t]) == Concat(pieces) + t
  {
    ConcatAppend(pieces, [t]);
    assert Concat([t]) == t + Concat([t][1..]);
  }

  // ----- concatenation of patterns -----

  function Append(a: Regex, b: Regex): Regex {
    if a.End? then b else Then(a.head, Append(a.tail, b))
  }

  lemma {:induction false} ElemsAppend(a: Regex, b: Regex)
    ensures Elems(Append(a, b)) == Elems(a) + Elems(b)
  {
    if a.Then? {
      ElemsAppend(a.tail, b);
    }
  }

  datatype Front = Stuck | At(pieces: seq<string>, rest: string)

  /** Runs the common front only, returning its pieces and the text after it. */
  function RunFront(re: Regex, s: string): (r: Front)
    ensures r.At? ==> |r.pieces| == Length(re)
  {
    match re
    case End => At([], s)
    case Then(e, tail) =>
      match Greedy(e, s)
      case None => Stuck
      case Some(n) =>
        match RunFront(tail, s[n..])
        case Stuck => Stuck
        case At(pieces, rest) => At([s[..n]] + pieces, rest)
  }

  lemma {:induction false} RunAppend(a: Regex, b: Regex, s: string)
    ensures var front := RunFront(a, s);
      && (Run(Append(a, b), s).Some? <==> front.At? && Run(b, front.rest).Some?)
      && (Run(Append(a, b), s).Some? ==> Run(Append(a, b), s).value == front.pieces + Run(b, front.rest).value)
  {
    if a.Then? && Greedy(a.head, s).Some? {
      var n := Greedy(a.head, s).value;
      var tail := RunFront(a.tail, s[n..]);
      RunAppend(a.tail, b, s[n..]);
      assert Append(a, b) == Then(a.head, Append(a.tail, b));
      if tail.At? && Run(b, tail.rest).Some? {
        Regroup([s[..n]], tail.pieces, Run(b, tail.rest).value);
      }
    }
  }

  lemma Regroup(a: seq<string>, b: seq<string>, c: seq<string>)
    ensures a + (b + c) == (a + b) + c
  {
  }

  // ----- marks -----

  predicate IsMark(c: char) {
    c == '(' || c == '[' || c == ',' || c == '$'
  }

  /** Does the pattern contain the literal `c`? */
  predicate Names(re: Regex, c: char)
    decreases re
  {
    re.Then? && (re.head == Lit(c) || Names(re.tail, c))
  }

  predicate MarksAreLiterals(re: Regex) {
    re.Then? ==> (re.head.Opt? ==> !IsMark(re.head.c)) && MarksAreLiterals(re.tail)
  }

  /** Marks belong to no character class, so a match contains exactly the marks its pattern names. */
  lemma {:induction false} MarksOfMatch(re: Regex, s: string, pieces: seq<string>, c: char)
    requires IsMark(c) && Matches(re, s, pieces) && MarksAreLiterals(re)
    ensures c in s <==> Names(re, c)
  {
    if re.Then? {
      var t, rest := pieces[0], s[|pieces[0]|..];
      assert s == t + rest;
      MarksOfMatch(re.tail, rest, pieces[1..], c);
      MarksOfPiece(re.head, t, c);
    }
  }

  lemma MarksOfPiece(e: Elem, t: string, c: char)
    requires IsMark(c) && Fits(e, t) && (e.Opt? ==> !IsMark(e.c))
    ensures c in t <==> e == Lit(c)
  {
  }
}
