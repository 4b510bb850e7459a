/**
 Compiling a probe's whole argument string: trim, split, and compile every argument into the fixed
 array of a specification. Canonically printed lists compile back to the same specifications.
 */
module ArgLists {
  import opened Wrappers
  import opened Machine
  import opened Text
  import opened Regexes
  import opened Patterns
  import opened ArgSyntax
  import opened ArgSplitter
  import opened ArgCompiler
  import opened Registers
  import opened Specs

  /** Index of the first failure among results. */
  function FirstErr<T, E>(rs: seq<Result<T, E>>): (r: Option<nat>)
    ensures r.None? ==> forall i :: 0 <= i < |rs| ==> rs[i].Ok?
    ensures r.Some? ==> r.value < |rs| && rs[r.value].Err? && forall i :: 0 <= i < r.value ==> rs[i].Ok?
  {
    if rs == [] then None
    else if rs[0].Err? then Some(0)
    else match FirstErr(rs[1..])
      case None => None
      case Some(k) => Some(k + 1)
  }

  /** Every token on its own. */
  function ParseEach(arch: Arch, toks: seq<string>): (rs: seq<Result<ArgSpec, ParseError>>)
    ensures |rs| == |toks|
    ensures forall i :: 0 <= i < |toks| ==> rs[i] == ParseArg(arch, toks[i])
  {
    seq(|toks|, i requires 0 <= i < |toks| => ParseArg(arch, toks[i]))
  }

  /** The compiled arguments followed by zero values. */
  function SpecArray(rs: seq<Result<ArgSpec, ParseError>>): ArgArray
    requires |rs| <= MAX_ARG_CNT && forall i :: 0 <= i < |rs| ==> rs[i].Ok?
  {
    seq(MAX_ARG_CNT, i requires 0 <= i < MAX_ARG_CNT => if i < |rs| then rs[i].value else ZERO_ARG)
  }

  /** Twelve arguments at most; the first bad argument decides the error. */
  function Collect(rs: seq<Result<ArgSpec, ParseError>>): Result<Spec, ParseError> {
    if |rs| > MAX_ARG_CNT then Err(TooManyArguments)
    else match FirstErr(rs)
      case Some(i) => Err(rs[i].error)
      case None => Ok(Spec(SpecArray(rs), 0, |rs|))
  }

  /** The single arguments of a probe's argument string. */
  function SourceArgs(text: string): seq<string> {
    Tokens(TrimSpace(text))
  }

  function ParseArguments(arch: Arch, text: string): Result<Spec, ParseError> {
    Collect(ParseEach(arch, SourceArgs(text)))
  }

  lemma CollectOk(rs: seq<Result<ArgSpec, ParseError>>, specs: seq<ArgSpec>)
    requires |rs| == |specs| <= MAX_ARG_CNT && forall i :: 0 <= i < |specs| ==> rs[i] == Ok(specs[i])
    ensures Collect(rs) == Ok(Spec(specs + seq(MAX_ARG_CNT - |specs|, _ => ZERO_ARG), 0, |specs|))
  {
    assert FirstErr(rs).None?;
    assert SpecArray(rs) == specs + seq(MAX_ARG_CNT - |specs|, _ => ZERO_ARG);
  }

  lemma CollectErr(rs: seq<Result<ArgSpec, ParseError>>, k: nat)
    requires k < |rs| <= MAX_ARG_CNT && rs[k].Err? && forall i :: 0 <= i < k ==> rs[i].Ok?
    ensures Collect(rs) == Err(rs[k].error)
  {
  }

  // ----- which argument strings are accepted -----

  ghost predicate AcceptedArg(arch: Arch, text: string) {
    exists arg :: Spells(text, arg) && NumbersFit(arg) && RegisterKnown(arch, arg.loc)
  }

  /** At most twelve arguments, each of which spells one with fitting numbers and a known register. */
  ghost predicate AcceptedList(arch: Arch, text: string) {
    |SourceArgs(text)| <= 12 && forall i :: 0 <= i < |SourceArgs(text)| ==> AcceptedArg(arch, SourceArgs(text)[i])
  }

  lemma CollectExactly(rs: seq<Result<ArgSpec, ParseError>>)
    ensures Collect(rs).Ok? <==> |rs| <= 12 && forall i :: 0 <= i < |rs| ==> rs[i].Ok?
    ensures Collect(rs).Ok? ==>
      && Collect(rs).value.argCnt == |rs| && Collect(rs).value.cookie == 0
      && forall i :: 0 <= i < 12 ==>
           if i < |rs| then rs[i] == Ok(Collect(rs).value.args[i]) else Collect(rs).value.args[i] == ZERO_ARG
  {
  }

  /** An argument string has a specification if and only if it is accepted; then the arguments are in order. */
  lemma ListAcceptedExactly(arch: Arch, text: string)
    ensures ParseArguments(arch, text).Ok? <==> AcceptedList(arch, text)
    ensures ParseArguments(arch, text).Ok? ==>
      var spec, toks := ParseArguments(arch, text).value, SourceArgs(text);
      && spec.argCnt == |toks| <= 12 && spec.cookie == 0
      && forall i :: 0 <= i < 12 ==>
           if i < |toks| then ParseArg(arch, toks[i]) == Ok(spec.args[i]) else spec.args[i] == ZERO_ARG
  {
    var toks := SourceArgs(text);
    CollectExactly(ParseEach(arch, toks));
    forall i | 0 <= i < |toks| ensures ParseArg(arch, toks[i]).Ok? <==> AcceptedArg(arch, toks[i]) {
      AcceptedExactly(arch, toks[i]);
    }
  }

  /** The array holds the successes, or the first failure is reported. */
  ghost predicate Filled(rs: seq<Result<ArgSpec, ParseError>>, args: ArgArray, bad: Option<ParseError>) {
    match bad
    case None =>
      forall j :: 0 <= j < MAX_ARG_CNT ==> if j < |rs| then rs[j] == Ok(args[j]) else args[j] == ZERO_ARG
    case Some(error) =>
      exists k :: 0 <= k < |rs| && rs[k] == Err(error) && forall j :: 0 <= j < k ==> rs[j].Ok?
  }

  lemma FilledIsCollected(rs: seq<Result<ArgSpec, ParseError>>, args: ArgArray, bad: Option<ParseError>)
    requires |rs| <= MAX_ARG_CNT && Filled(rs, args, bad)
    ensures Collect(rs) == if bad.Some? then Err(bad.value) else Ok(Spec(args, 0, |rs|))
  {
    if bad.Some? {
      var k :| 0 <= k < |rs| && rs[k] == Err(bad.value) && forall j :: 0 <= j < k ==> rs[j].Ok?;
      CollectErr(rs, k);
    } else {
      CollectOk(rs, args[..|rs|]);
      assert args == args[..|rs|] + seq(MAX_ARG_CNT - |rs|, _ => ZERO_ARG);
    }
  }

  /** The loop that fills the array, stopping at the first argument that does not compile. */
  method FillArgs(arch: Arch, argStrs: seq<string>) returns (args: ArgArray, bad: Option<ParseError>)
    requires |argStrs| <= MAX_ARG_CNT
    ensures Filled(ParseEach(arch, argStrs), args, bad)
  {
    ghost var rs := ParseEach(arch, argStrs);
    args := seq(MAX_ARG_CNT, _ => ZERO_ARG);
    for i := 0 to |argStrs|
      invariant forall j :: 0 <= j < i ==> rs[j] == Ok(args[j])
      invariant forall j :: i <= j < MAX_ARG_CNT ==> args[j] == ZERO_ARG
    {
      var argSpec := ParseUSDTArgSpec(arch, argStrs[i]);
      assert argSpec == rs[i];
      if argSpec.Err? {
        return args, Some(argSpec.error);
      }
      args := args[i := argSpec.value];
    }
    bad := None;
  }

  method ParseUSDTArguments(arch: Arch, text: string) returns (r: Result<Spec, ParseError>)
    ensures r == ParseArguments(arch, text)
  {
    var argString := TrimSpace(text);
    if argString == "" {
      CollectOk([], []);
      var zero: ArgArray := seq(MAX_ARG_CNT, _ => ZERO_ARG);
      assert [] + zero == zero;
      return Ok(Spec(zero, 0, 0));
    }
    var argStrs := SplitUSDTArgs(argString);
    if |argStrs| > 12 {
      return Err(TooManyArguments);
    }
    var args, bad := FillArgs(arch, argStrs);
    FilledIsCollected(ParseEach(arch, argStrs), args, bad);
    if bad.Some? {
      return Err(bad.value);
    }
    return Ok(Spec(args, 0, |argStrs|));
  }

  // ----- spelled arguments are tokens -----

  predicate NoSplitSpace(s: string) {
    forall i :: 0 <= i < |s| ==> !IsSplitSpace(s[i])
  }

  lemma {:induction false} ConcatNoSplitSpace(pieces: seq<string>)
    requires forall i :: 0 <= i < |pieces| ==> NoSplitSpace(pieces[i])
    ensures NoSplitSpace(Concat(pieces))
  {
    if pieces != [] {
      ConcatNoSplitSpace(pieces[1..]);
    }
  }

  lemma AlnumNoSplitSpace(s: string)
    ensures AllIn(Alnum, s) ==> NoSplitSpace(s)
    ensures IsNumeral(s) ==> NoSplitSpace(s)
  {
  }

  lemma {:induction false} NoOpenBracket(s: string, i: nat)
    requires i <= |s| && '[' !in s
    ensures !InBracket(s, i)
  {
    if i > 0 {
      NoOpenBracket(s, i - 1);
    }
  }

  lemma PiecesNoSplitSpace(p: Pattern, c: Captures)
    requires WellFormed(p, c)
    ensures forall i :: 0 <= i < |SpellPieces(p, c)| && !(p == RegDerefWithOffsetARM && i == 11) ==>
      NoSplitSpace(SpellPieces(p, c)[i])
  {
    AlnumNoSplitSpace(c.size);
    AlnumNoSplitSpace(c.number);
    AlnumNoSplitSpace(c.register);
    LocationPiecesNoSplitSpace(p, c);
    var pieces := SpellPieces(p, c);
    forall i | 0 <= i < |pieces| && !(p == RegDerefWithOffsetARM && i == 11) ensures NoSplitSpace(pieces[i]) {
      if i >= 6 {
        assert pieces[i] == LocationPieces(p, c)[i - 6];
      }
    }
  }

  lemma LocationPiecesNoSplitSpace(p: Pattern, c: Captures)
    requires NoSplitSpace(c.number) && NoSplitSpace(c.register)
    ensures forall i :: 0 <= i < |LocationPieces(p, c)| && !(p == RegDerefWithOffsetARM && i == 5) ==>
      NoSplitSpace(LocationPieces(p, c)[i])
  {
  }

  /** A spelled argument is one token: its only space is inside its brackets, and those are closed. */
  lemma SpelledIsToken(p: Pattern, c: Captures)
    requires WellFormed(p, c)
    ensures Spell(p, c) != [] && Atomic(Spell(p, c)) && Closed(Spell(p, c))
  {
    var s := Spell(p, c);
    SpellTrimmed(p, c);
    PiecesNoSplitSpace(p, c);
    if p == RegDerefWithOffsetARM {
      OffsetARMIsToken(c);
    } else {
      ConcatNoSplitSpace(SpellPieces(p, c));
      if p == RegDerefNoOffsetARM {
        EndsWithBracket(p, c);
      } else {
        FindSpelled(p, c);
        MarksOfPattern(p, s, '[');
        NoOpenBracket(s, |s|);
      }
    }
  }

  lemma EndsWithBracket(p: Pattern, c: Captures)
    requires WellFormed(p, c) && (p == RegDerefWithOffsetARM || p == RegDerefNoOffsetARM)
    ensures Spell(p, c) != [] && Spell(p, c)[|Spell(p, c)| - 1] == ']'
    ensures Closed(Spell(p, c))
  {
    var pieces := SpellPieces(p, c);
    var n := |pieces|;
    assert pieces == pieces[..n - 2] + ["]"] + [[]];
    ConcatSnoc(pieces[..n - 2] + ["]"], []);
    ConcatSnoc(pieces[..n - 2], "]");
  }

  /** Inside an opened bracket. */
  lemma {:induction false} OpenBracket(x: string, y: string)
    requires ']' !in y
    ensures InBracket(x + "[" + y, |x + "[" + y|)
  {
    var s := x + "[" + y;
    if y == [] {
    } else {
      var y' := y[..|y| - 1];
      OpenBracket(x, y');
      assert s == x + "[" + y' + [y[|y| - 1]];
      InBracketPrefix(x + "[" + y', [y[|y| - 1]], |x + "[" + y'|);
    }
  }

  lemma {:induction false} ConcatLacks(pieces: seq<string>, ch: char)
    requires forall i :: 0 <= i < |pieces| ==> ch !in pieces[i]
    ensures ch !in Concat(pieces)
  {
    if pieces != [] {
      ConcatLacks(pieces[1..], ch);
    }
  }

  lemma OffsetARMIsToken(c: Captures)
    requires WellFormed(RegDerefWithOffsetARM, c)
    ensures Atomic(Spell(RegDerefWithOffsetARM, c)) && Closed(Spell(RegDerefWithOffsetARM, c))
  {
    var p := RegDerefWithOffsetARM;
    var s, pieces := Spell(p, c), SpellPieces(p, c);
    EndsWithBracket(p, c);
    PiecesNoSplitSpace(p, c);
    var front, back := Concat(pieces[..11]), Concat(pieces[12..]);
    ConcatNoSplitSpace(pieces[..11]);
    ConcatNoSplitSpace(pieces[12..]);
    OffsetARMPieces(c);
    ConcatAround(pieces, 11);
    assert s == front + (" " + back);
    OffsetARMFront(c);
    SpaceInBracket(front, back);
  }

  lemma ConcatAround(pieces: seq<string>, k: nat)
    requires k < |pieces|
    ensures Concat(pieces) == Concat(pieces[..k]) + (pieces[k] + Concat(pieces[k + 1..]))
  {
    assert pieces == pieces[..k] + pieces[k..];
    ConcatAppend(pieces[..k], pieces[k..]);
    assert pieces[k..][1..] == pieces[k + 1..];
  }

  /** A single space after an opened bracket does not separate. */
  lemma SpaceInBracket(front: string, back: string)
    requires NoSplitSpace(front) && NoSplitSpace(back) && InBracket(front, |front|)
    ensures Atomic(front + (" " + back))
  {
    var s := front + (" " + back);
    InBracketPrefix(front, " " + back, |front|);
    forall i | 0 <= i < |s| ensures !SepAt(s, i) {
      if i < |front| {
        assert s[i] == front[i];
      } else if i > |front| {
        assert s[i] == back[i - |front| - 1];
      }
    }
  }

  lemma OffsetARMFront(c: Captures)
    requires WellFormed(RegDerefWithOffsetARM, c)
    ensures |SpellPieces(RegDerefWithOffsetARM, c)| == 16
    ensures var front := Concat(SpellPieces(RegDerefWithOffsetARM, c)[..11]); InBracket(front, |front|)
  {
    var pieces := SpellPieces(RegDerefWithOffsetARM, c);
    OffsetARMPieces(c);
    var front := pieces[..11];
    ConcatAround(front, 6);
    assert forall i :: 0 <= i < 4 ==> front[7..][i] == pieces[7 + i];
    ConcatLacks(front[7..], ']');
    OpenBracket(Concat(front[..6]), Concat(front[7..]));
    RegroupBracket(Concat(front[..6]), Concat(front[7..]));
  }

  lemma RegroupBracket(x: string, y: string)
    ensures x + ("[" + y) == x + "[" + y
  {
  }

  lemma OffsetARMPieces(c: Captures)
    requires WellFormed(RegDerefWithOffsetARM, c)
    ensures var pieces := SpellPieces(RegDerefWithOffsetARM, c);
      && |pieces| == 16 && pieces[6] == "[" && pieces[11] == " "
      && forall i :: 7 <= i < 11 ==> ']' !in pieces[i]
  {
    var l := LocationPieces(RegDerefWithOffsetARM, c);
    assert forall i :: 0 <= i < 10 ==> SpellPieces(RegDerefWithOffsetARM, c)[6 + i] == l[i];
    assert ']' !in l[1] && ']' !in l[2] && ']' !in l[3] && ']' !in l[4];
  }

  // ----- trimming a laid-out list -----

  lemma {:induction false} InterleaveTail(gaps: seq<string>, toks: seq<string>)
    requires |gaps| == |toks| + 1
    ensures Interleave(gaps, toks) == Interleave(gaps[|toks| := []], toks) + gaps[|toks|]
  {
    if toks != [] {
      var gs := gaps[|toks| := []];
      InterleaveTail(gaps[1..], toks[1..]);
      assert gs[1..] == gaps[1..][|toks| - 1 := []];
      assert gs[0] == gaps[0];
    }
  }

  lemma {:induction false} InterleaveLast(gaps: seq<string>, toks: seq<string>)
    requires |gaps| == |toks| + 1 && toks != [] && gaps[|toks|] == [] && toks[|toks| - 1] != []
    ensures Interleave(gaps, toks) != []
    ensures var s, t := Interleave(gaps, toks), toks[|toks| - 1]; s[|s| - 1] == t[|t| - 1]
  {
    if |toks| == 1 {
      assert Interleave(gaps[1..], toks[1..]) == gaps[1];
    } else {
      InterleaveLast(gaps[1..], toks[1..]);
    }
  }

  lemma SplitSpaceIsUnicodeSpace(s: string)
    requires AllSplitSpace(s)
    ensures AllUnicodeSpace(s)
  {
  }

  /** Trimming a list of trimmed tokens only removes its outer gaps. */
  lemma TrimmedLayout(gaps: seq<string>, toks: seq<string>)
    requires AreTokens(toks) && AreGaps(gaps, toks)
    requires forall i :: 0 <= i < |toks| ==> IsTrimmed(toks[i])
    ensures Tokens(TrimSpace(Interleave(gaps, toks))) == toks
  {
    var n := |toks|;
    SplitSpaceIsUnicodeSpace(gaps[0]);
    SplitSpaceIsUnicodeSpace(gaps[n]);
    if toks == [] {
      TrimLeftAll(gaps[0]);
      assert Interleave(gaps, toks) == gaps[0];
    } else {
      var inner := gaps[n := []][0 := []];
      OuterGaps(gaps, toks);
      CoreTrimmed(inner, toks);
      TrimSpaceUnique(gaps[0], Interleave(inner, toks), gaps[n]);
      LayoutTokens(inner, toks);
    }
  }

  lemma OuterGaps(gaps: seq<string>, toks: seq<string>)
    requires toks != [] && AreGaps(gaps, toks)
    ensures AreGaps(gaps[|toks| := []][0 := []], toks)
    ensures Interleave(gaps, toks) == gaps[0] + Interleave(gaps[|toks| := []][0 := []], toks) + gaps[|toks|]
  {
    var mid := gaps[|toks| := []];
    var inner := mid[0 := []];
    InterleaveTail(gaps, toks);
    assert mid[1..] == inner[1..] && mid[0] == gaps[0];
    var t := toks[0] + Interleave(inner[1..], toks[1..]);
    assert Interleave(mid, toks) == gaps[0] + t;
    assert Interleave(inner, toks) == [] + t == t;
  }

  lemma CoreTrimmed(inner: seq<string>, toks: seq<string>)
    requires |inner| == |toks| + 1 && toks != [] && inner[0] == [] && inner[|toks|] == []
    requires forall i :: 0 <= i < |toks| ==> toks[i] != [] && IsTrimmed(toks[i])
    ensures Interleave(inner, toks) != [] && IsTrimmed(Interleave(inner, toks))
  {
    InterleaveLast(inner, toks);
    assert Interleave(inner, toks) == [] + (toks[0] + Interleave(inner[1..], toks[1..]));
  }

  // ----- printing lists -----

  function PrintAll(styles: seq<Pattern>, args: seq<Arg>): (toks: seq<string>)
    requires |styles| == |args| && forall i :: 0 <= i < |args| ==> Styled(styles[i], args[i].loc)
    ensures |toks| == |args|
    ensures forall i :: 0 <= i < |args| ==> toks[i] == Print(styles[i], args[i])
  {
    seq(|args|, i requires 0 <= i < |args| => Print(styles[i], args[i]))
  }

  function CompileAll(arch: Arch, args: seq<Arg>): (rs: seq<Result<ArgSpec, ParseError>>)
    ensures |rs| == |args| && forall i :: 0 <= i < |args| ==> rs[i] == CompileArg(arch, args[i])
  {
    seq(|args|, i requires 0 <= i < |args| => CompileArg(arch, args[i]))
  }

  lemma PrintedIsToken(p: Pattern, arg: Arg)
    requires Styled(p, arg.loc)
    ensures Print(p, arg) != [] && Atomic(Print(p, arg)) && Closed(Print(p, arg)) && IsTrimmed(Print(p, arg))
  {
    SpelledIsToken(p, CapturesFor(p, arg));
    SpellTrimmed(p, CapturesFor(p, arg));
  }

  lemma ParsePrinted(arch: Arch, p: Pattern, arg: Arg)
    requires Styled(p, arg.loc)
    ensures ParseArg(arch, Print(p, arg)) == CompileArg(arch, arg)
  {
    PrintRead(p, arg);
    ReadSpelled(p, CapturesFor(p, arg));
  }

  lemma PrintAllTokens(styles: seq<Pattern>, args: seq<Arg>)
    requires |styles| == |args| && forall i :: 0 <= i < |args| ==> Styled(styles[i], args[i].loc)
    ensures AreTokens(PrintAll(styles, args))
    ensures forall i :: 0 <= i < |args| ==> Closed(PrintAll(styles, args)[i])
    ensures forall i :: 0 <= i < |args| ==> IsTrimmed(PrintAll(styles, args)[i])
  {
    var toks := PrintAll(styles, args);
    forall i | 0 <= i < |args| ensures toks[i] != [] && Atomic(toks[i]) && Closed(toks[i]) && IsTrimmed(toks[i]) {
      PrintedIsToken(styles[i], args[i]);
    }
  }

  lemma ParseAllPrinted(arch: Arch, styles: seq<Pattern>, args: seq<Arg>)
    requires |styles| == |args| && forall i :: 0 <= i < |args| ==> Styled(styles[i], args[i].loc)
    ensures ParseEach(arch, PrintAll(styles, args)) == CompileAll(arch, args)
  {
    var toks := PrintAll(styles, args);
    forall i | 0 <= i < |args| ensures ParseEach(arch, toks)[i] == CompileAll(arch, args)[i] {
      ParsePrinted(arch, styles[i], args[i]);
    }
  }

  /** Whitespace around and between `n` tokens. */
  predicate Gaps(gaps: seq<string>, n: nat) {
    && |gaps| == n + 1
    && (forall i :: 0 <= i < |gaps| ==> AllSplitSpace(gaps[i]))
    && (forall i :: 0 < i < n ==> gaps[i] != [])
  }

  /**
   A printed list, in any mix of syntaxes and with any whitespace between, before and after, parses
   to exactly the compiled arguments in order, or to the rejection of the first one that has none.
   */
  lemma PrintParseList(arch: Arch, styles: seq<Pattern>, args: seq<Arg>, gaps: seq<string>)
    requires |styles| == |args| && forall i :: 0 <= i < |args| ==> Styled(styles[i], args[i].loc)
    requires Gaps(gaps, |args|)
    ensures ParseArguments(arch, Interleave(gaps, PrintAll(styles, args))) == Collect(CompileAll(arch, args))
  {
    PrintAllTokens(styles, args);
    TrimmedLayout(gaps, PrintAll(styles, args));
    ParseAllPrinted(arch, styles, args);
  }

  // ----- every well-formed specification has a text -----

  predicate WellFormedSpec(arch: Arch, a: ArgSpec) {
    && 0 <= a.bitshift <= 56 && a.bitshift % 8 == 0
    && (|| (a.argType == ARG_CONST && a.regID == REG_NONE)
        || (a.argType == ARG_REG && IsRegister(arch, a.regID) && a.valOff == 0)
        || (a.argType == ARG_REG_DEREF && IsRegister(arch, a.regID)))
  }

  /** The argument a well-formed specification stands for. */
  function ArgFor(arch: Arch, a: ArgSpec): Arg
    requires WellFormedSpec(arch, a)
  {
    Arg(if a.signed then -(64 - a.bitshift) / 8 else (64 - a.bitshift) / 8, a.isFloat,
        if a.argType == ARG_CONST then Immediate(ToS64(a.valOff))
        else if a.argType == ARG_REG then Register(RegisterName(arch, a.regID))
        else Memory(RegisterName(arch, a.regID), ToS64(a.valOff)))
  }

  /** The syntax compilers use on the architecture. */
  function StyleFor(arch: Arch, a: ArgSpec): Pattern {
    if a.argType == ARG_CONST then Const
    else if a.argType == ARG_REG then Reg
    else if arch == Amd64 then RegDerefWithOffset else RegDerefWithOffsetARM
  }

  lemma CompileArgFor(arch: Arch, a: ArgSpec)
    requires WellFormedSpec(arch, a)
    ensures CompileArg(arch, ArgFor(arch, a)) == Ok(a)
  {
    BitshiftOfBytes(a.bitshift);
    WrapRoundTrip(a.valOff);
    if a.argType != ARG_CONST {
      RegisterNameFound(arch, a.regID);
      assert CompileRegister(arch, ArgFor(arch, a), a.argType, RegisterName(arch, a.regID), ToS64(a.valOff)) == Ok(a);
    }
  }

  lemma WrapRoundTrip(v: u64)
    ensures IsInt64(ToS64(v)) && ToU64(ToS64(v)) == v
    ensures v == 0 ==> ToS64(v) == 0
  {
  }

  lemma BitshiftOfBytes(shift: int)
    requires 0 <= shift <= 56 && shift % 8 == 0
    ensures Bitshift((64 - shift) / 8) == Bitshift(-(64 - shift) / 8) == shift
  {
  }

  lemma StyledFor(arch: Arch, a: ArgSpec)
    requires WellFormedSpec(arch, a)
    ensures Styled(StyleFor(arch, a), ArgFor(arch, a).loc)
  {
    if a.argType != ARG_CONST {
      RegisterNameFound(arch, a.regID);
      NamesAreAlphanumeric(arch, RegisterName(arch, a.regID));
    }
  }

  function StylesFor(arch: Arch, specs: seq<ArgSpec>): (styles: seq<Pattern>)
    ensures |styles| == |specs| && forall i :: 0 <= i < |specs| ==> styles[i] == StyleFor(arch, specs[i])
  {
    seq(|specs|, i requires 0 <= i < |specs| => StyleFor(arch, specs[i]))
  }

  function ArgsFor(arch: Arch, specs: seq<ArgSpec>): (args: seq<Arg>)
    requires forall i :: 0 <= i < |specs| ==> WellFormedSpec(arch, specs[i])
    ensures |args| == |specs|
    ensures forall i :: 0 <= i < |specs| ==> args[i] == ArgFor(arch, specs[i])
    ensures forall i :: 0 <= i < |specs| ==> Styled(StyleFor(arch, specs[i]), args[i].loc)
  {
    var args := seq(|specs|, i requires 0 <= i < |specs| => ArgFor(arch, specs[i]));
    assert forall i :: 0 <= i < |specs| ==> Styled(StyleFor(arch, specs[i]), args[i].loc) by {
      forall i | 0 <= i < |specs| ensures Styled(StyleFor(arch, specs[i]), args[i].loc) {
        StyledFor(arch, specs[i]);
      }
    }
    args
  }

  function PrintSpecs(arch: Arch, specs: seq<ArgSpec>): (toks: seq<string>)
    requires forall i :: 0 <= i < |specs| ==> WellFormedSpec(arch, specs[i])
    ensures |toks| == |specs|
  {
    PrintAll(StylesFor(arch, specs), ArgsFor(arch, specs))
  }

  lemma CompileAllFor(arch: Arch, specs: seq<ArgSpec>)
    requires forall i :: 0 <= i < |specs| ==> WellFormedSpec(arch, specs[i])
    ensures forall i :: 0 <= i < |specs| ==> CompileAll(arch, ArgsFor(arch, specs))[i] == Ok(specs[i])
  {
    forall i | 0 <= i < |specs| ensures CompileAll(arch, ArgsFor(arch, specs))[i] == Ok(specs[i]) {
      CompileArgFor(arch, specs[i]);
    }
  }

  /**
   Round trip for whole lists: at most twelve well-formed specifications, printed, joined with any
   whitespace and parsed again, come back unchanged, in order and with the right count.
   */
  lemma SpecsRoundTrip(arch: Arch, specs: seq<ArgSpec>, gaps: seq<string>)
    requires |specs| <= MAX_ARG_CNT
    requires forall i :: 0 <= i < |specs| ==> WellFormedSpec(arch, specs[i])
    requires Gaps(gaps, |specs|)
    ensures ParseArguments(arch, Interleave(gaps, PrintSpecs(arch, specs)))
      == Ok(Spec(specs + seq(MAX_ARG_CNT - |specs|, _ => ZERO_ARG), 0, |specs|))
  {
    PrintParseList(arch, StylesFor(arch, specs), ArgsFor(arch, specs), gaps);
    CompileAllFor(arch, specs);
    CollectOk(CompileAll(arch, ArgsFor(arch, specs)), specs);
  }
}
