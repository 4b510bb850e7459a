/**
 The abstract syntax of one USDT argument, SIZE@LOCATION, and how text spells it: what the seven
 patterns capture, what the captures denote, and a canonical printer.
 */
module ArgSyntax {
  import opened Wrappers
  import opened Text
  import opened Regexes
  import opened Patterns

  datatype Location =
    | Immediate(value: int)
    | Register(name: string)
    | Memory(name: string, offset: int)

  /** A negative size means a signed argument; its magnitude counts bytes. */
  datatype Arg = Arg(size: int, isFloat: bool, loc: Location)

  // ----- captures -----

  /** The submatches of a pattern; those it does not have are empty. */
  datatype Captures = Captures(size: string, isFloat: bool, number: string, register: string)

  predicate HasNumber(p: Pattern) {
    p == RegDerefWithOffset || p == RegDerefWithOffsetARM || p == Const || p == BareConst
  }

  predicate HasRegister(p: Pattern) {
    p != Const && p != BareConst
  }

  predicate WellFormed(p: Pattern, c: Captures) {
    && IsNumeral(c.size)
    && (if HasNumber(p) then IsNumeral(c.number) else c.number == [])
    && (if HasRegister(p) then c.register != [] && AllIn(Alnum, c.register) else c.register == [])
  }

  lemma PatternElems(p: Pattern)
    ensures Elems(RegexOf(p)) == [WS, Num, Opt('f'), WS, Lit('@'), WS] + LocationElems(p)
    ensures Length(RegexOf(p)) == 6 + |LocationElems(p)|
  {
    ElemsAppend(SizePart(), LocationPart(p));
    SizeElemsOf();
    LocationElemsOf(p);
  }

  /** The captures, given the pieces of a match. */
  function CapturesOf(p: Pattern, pieces: seq<string>): Captures
    requires |pieces| == 6 + |LocationElems(p)|
  {
    var size, isFloat, l := pieces[1], pieces[2] == "f", pieces[6..];
    match p
    case RegDerefWithOffset => Captures(size, isFloat, l[0], l[5])
    case RegDerefWithOffsetARM => Captures(size, isFloat, l[6], l[2])
    case RegDerefNoOffset => Captures(size, isFloat, [], l[3])
    case RegDerefNoOffsetARM => Captures(size, isFloat, [], l[2])
    case Const => Captures(size, isFloat, l[1], [])
    case BareConst => Captures(size, isFloat, l[0], [])
    case Reg => Captures(size, isFloat, [], l[1])
  }

  /** `FindStringSubmatch` with its submatches named. */
  function Capture(p: Pattern, s: string): Option<Captures> {
    PatternElems(p);
    match Find(p, s)
    case None => None
    case Some(pieces) => Some(CapturesOf(p, pieces))
  }

  lemma CapturesWellFormed(p: Pattern, s: string)
    requires Capture(p, s).Some?
    ensures WellFormed(p, Capture(p, s).value)
  {
    var pieces := Find(p, s).value;
    FindExact(p, s, pieces);
    MatchesMeaning(RegexOf(p), s, pieces);
    PiecesFitLocation(p, pieces);
    LocationCapturesFit(p, pieces[6..]);
  }

  lemma PiecesFitLocation(p: Pattern, pieces: seq<string>)
    requires FitsAll(RegexOf(p), pieces)
    ensures |pieces| == 6 + |LocationElems(p)| && IsNumeral(pieces[1])
    ensures forall i :: 0 <= i < |LocationElems(p)| ==> Fits(LocationElems(p)[i], pieces[6..][i])
  {
    PatternElems(p);
    var es := Elems(RegexOf(p));
    assert Fits(es[1], pieces[1]);
    forall i | 0 <= i < |LocationElems(p)| ensures Fits(LocationElems(p)[i], pieces[6..][i]) {
      assert Fits(es[i + 6], pieces[i + 6]);
    }
  }

  lemma LocationCapturesFit(p: Pattern, l: seq<string>)
    requires |l| == |LocationElems(p)|
    requires forall i :: 0 <= i < |l| ==> Fits(LocationElems(p)[i], l[i])
    ensures p == RegDerefWithOffset ==> Fits(Num, l[0]) && Fits(Plus(Alnum), l[5])
    ensures p == RegDerefWithOffsetARM ==> Fits(Num, l[6]) && Fits(Plus(Alnum), l[2])
    ensures p == RegDerefNoOffset ==> Fits(Plus(Alnum), l[3])
    ensures p == RegDerefNoOffsetARM ==> Fits(Plus(Alnum), l[2])
    ensures p == Const ==> Fits(Num, l[1])
    ensures p == BareConst ==> Fits(Num, l[0])
    ensures p == Reg ==> Fits(Plus(Alnum), l[1])
  {
  }

  // ----- what captures denote -----

  function ArgOf(p: Pattern, c: Captures): Arg
    requires WellFormed(p, c)
  {
    Arg(NumeralValue(c.size), c.isFloat,
        match p
        case RegDerefWithOffset | RegDerefWithOffsetARM => Memory(c.register, NumeralValue(c.number))
        case RegDerefNoOffset | RegDerefNoOffsetARM => Memory(c.register, 0)
        case Const | BareConst => Immediate(NumeralValue(c.number))
        case Reg => Register(c.register))
  }

  /**
   The grammar of one argument, outer whitespace aside: some pattern matches and its captures
   denote `arg`, except that a bare number is a constant and not a register name.
   */
  ghost predicate Spells(text: string, arg: Arg) {
    exists p: Pattern, c: Captures ::
      && Spelling(p, TrimSpace(text), c)
      && (p == Reg ==> forall c' :: !Spelling(BareConst, TrimSpace(text), c'))
      && arg == ArgOf(p, c)
  }

  ghost predicate Spelling(p: Pattern, s: string, c: Captures) {
    && WellFormed(p, c)
    && exists pieces ::
      && Matches(RegexOf(p), s, pieces)
      && |pieces| == 6 + |LocationElems(p)|
      && c == CapturesOf(p, pieces)
  }

  lemma SpellingIsCapture(p: Pattern, s: string, c: Captures)
    ensures Spelling(p, s, c) <==> Capture(p, s) == Some(c)
  {
    PatternElems(p);
    if Spelling(p, s, c) {
      var pieces :| Matches(RegexOf(p), s, pieces) && |pieces| == 6 + |LocationElems(p)| && c == CapturesOf(p, pieces);
      FindExact(p, s, pieces);
    }
    if Capture(p, s) == Some(c) {
      CapturesWellFormed(p, s);
      FindExact(p, s, Find(p, s).value);
    }
  }

  /** The reading of one argument when the patterns are tried in some order: the first match decides. */
  function ReadBy(order: seq<Pattern>, text: string): Option<Arg> {
    var s := TrimSpace(text);
    match FirstMatch(order, s)
    case None => None
    case Some(p) =>
      CapturesWellFormed(p, s);
      Some(ArgOf(p, Capture(p, s).value))
  }

  /** The reading in the parser's own order. */
  function ReadArg(text: string): Option<Arg> {
    ReadBy(CASCADE, text)
  }

  /** The cascade reads exactly the grammar, and the grammar is unambiguous. */
  lemma ReadArgExact(text: string, arg: Arg)
    ensures ReadArg(text) == Some(arg) <==> Spells(text, arg)
  {
    if ReadArg(text).Some? {
      ReadArgSound(text);
    }
    if Spells(text, arg) {
      ReadArgComplete(text, arg);
    }
  }

  lemma ReadArgSound(text: string)
    requires ReadArg(text).Some?
    ensures Spells(text, ReadArg(text).value)
  {
    var s := TrimSpace(text);
    var p := FirstMatch(CASCADE, s).value;
    CapturesWellFormed(p, s);
    SpellingIsCapture(p, s, Capture(p, s).value);
    if p == Reg {
      forall c ensures !Spelling(BareConst, s, c) {
        SpellingIsCapture(BareConst, s, c);
        RegisterNeedsNoBareConst(s);
      }
    }
  }

  lemma ReadArgComplete(text: string, arg: Arg)
    requires Spells(text, arg)
    ensures ReadArg(text) == Some(arg)
  {
    var s := TrimSpace(text);
    var p, c :|
      && Spelling(p, s, c)
      && (p == Reg ==> forall c' :: !Spelling(BareConst, s, c'))
      && arg == ArgOf(p, c);
    SpellingIsCapture(p, s, c);
    UniqueReading(p, s);
  }

  ghost predicate Unspelled(text: string) {
    forall arg :: !Spells(text, arg)
  }

  lemma UnspelledExactly(text: string)
    ensures Unspelled(text) <==> ReadArg(text).None?
  {
    forall arg ensures ReadArg(text) == Some(arg) <==> Spells(text, arg) {
      ReadArgExact(text, arg);
    }
  }

  /** An empty text spells nothing. */
  lemma NothingToRead(text: string)
    requires TrimSpace(text) == []
    ensures ReadArg(text).None?
  {
    forall p: Pattern ensures Find(p, []).None? {
      EmptyUnmatched(p);
    }
  }

  lemma EmptyUnmatched(p: Pattern)
    ensures Find(p, []).None?
  {
    assert Greedy(Num, []).None?;
    assert RegexOf(p).head == WS && RegexOf(p).tail.head == Num;
  }

  lemma RegisterNeedsNoBareConst(s: string)
    requires FirstMatch(CASCADE, s) == Some(Reg)
    ensures Find(BareConst, s).None?
  {
    CascadeFacts();
    if Find(BareConst, s).Some? {
      FirstMatchPrefersBareConst(CASCADE, s);
      assert false;
    }
  }

  /** A matching pattern is the first matching one, unless it is shadowed by the bare constant. */
  lemma UniqueReading(p: Pattern, s: string)
    requires Find(p, s).Some?
    requires p == Reg ==> forall c :: !Spelling(BareConst, s, c)
    ensures FirstMatch(CASCADE, s) == Some(p)
  {
    CascadeFacts();
    assert p in CASCADE;
    var q := FirstMatch(CASCADE, s).value;
    if q != p {
      CascadeUnambiguous(p, q, s);
      if p == BareConst {
        FirstMatchPrefersBareConst(CASCADE, s);
      } else {
        SpellingIsCapture(BareConst, s, Capture(BareConst, s).value);
      }
      assert false;
    }
  }

  // ----- canonical spelling -----

  /** The location of an argument as GCC and Clang print it, piece by piece. */
  function LocationPieces(p: Pattern, c: Captures): seq<string> {
    match p
    case RegDerefWithOffset => [c.number, [], "(", [], "%", c.register, [], ")", []]
    case RegDerefWithOffsetARM => ["[", [], c.register, [], ",", " ", c.number, [], "]", []]
    case RegDerefNoOffset => ["(", [], "%", c.register, [], ")", []]
    case RegDerefNoOffsetARM => ["[", [], c.register, [], "]", []]
    case Const => ["$", c.number, []]
    case BareConst => [c.number, []]
    case Reg => ["%", c.register, []]
  }

  function FrontPieces(c: Captures): seq<string> {
    [[], c.size, if c.isFloat then "f" else [], [], "@", []]
  }

  function SpellPieces(p: Pattern, c: Captures): seq<string> {
    FrontPieces(c) + LocationPieces(p, c)
  }

  lemma FrontPiecesFit(c: Captures)
    requires IsNumeral(c.size)
    ensures forall i :: 0 <= i < 6 ==> Fits([WS, Num, Opt('f'), WS, Lit('@'), WS][i], FrontPieces(c)[i])
  {
  }

  function Spell(p: Pattern, c: Captures): string {
    Concat(SpellPieces(p, c))
  }

  lemma LocationPiecesFit(p: Pattern, c: Captures)
    requires WellFormed(p, c)
    ensures |LocationPieces(p, c)| == |LocationElems(p)|
    ensures forall i :: 0 <= i < |LocationElems(p)| ==> Fits(LocationElems(p)[i], LocationPieces(p, c)[i])
  {
  }

  lemma SpellPiecesFit(p: Pattern, c: Captures)
    requires WellFormed(p, c)
    ensures FitsAll(RegexOf(p), SpellPieces(p, c))
  {
    LocationPiecesFit(p, c);
    PatternElems(p);
    var pieces, es := SpellPieces(p, c), Elems(RegexOf(p));
    FrontPiecesFit(c);
    forall i | 0 <= i < |pieces| ensures Fits(es[i], pieces[i]) {
      if i >= 6 {
        assert es[i] == LocationElems(p)[i - 6] && pieces[i] == LocationPieces(p, c)[i - 6];
      } else {
        assert es[i] == [WS, Num, Opt('f'), WS, Lit('@'), WS][i] && pieces[i] == FrontPieces(c)[i];
      }
    }
  }

  lemma FindSpelled(p: Pattern, c: Captures)
    requires WellFormed(p, c)
    ensures Find(p, Spell(p, c)) == Some(SpellPieces(p, c))
  {
    SpellPiecesFit(p, c);
    MatchesMeaning(RegexOf(p), Spell(p, c), SpellPieces(p, c));
    FindExact(p, Spell(p, c), SpellPieces(p, c));
  }

  lemma CapturesOfSpelled(p: Pattern, c: Captures)
    requires WellFormed(p, c)
    ensures |SpellPieces(p, c)| == 6 + |LocationElems(p)|
    ensures CapturesOf(p, SpellPieces(p, c)) == c
  {
  }

  /** A pattern recovers exactly the captures that were spelled with it. */
  lemma CaptureSpelled(p: Pattern, c: Captures)
    requires WellFormed(p, c)
    ensures Capture(p, Spell(p, c)) == Some(c)
  {
    FindSpelled(p, c);
    CapturesOfSpelled(p, c);
  }

  // ----- whitespace between the parts -----

  /** Any of the five characters that `\s` stands for, any number of times. */
  predicate IsFiller(w: string) {
    forall i :: 0 <= i < |w| ==> w[i] in " \t\n\r\U{0C}"
  }

  /** The location with fillers wherever the syntax allows them. */
  function LooseLocation(p: Pattern, c: Captures, w: seq<string>): seq<string>
    requires |w| == 8
  {
    match p
    case RegDerefWithOffset => [c.number, w[3], "(", w[4], "%", c.register, w[5], ")", w[6]]
    case RegDerefWithOffsetARM => ["[", w[3], c.register, w[4], ",", w[5], c.number, w[6], "]", w[7]]
    case RegDerefNoOffset => ["(", w[3], "%", c.register, w[4], ")", w[5]]
    case RegDerefNoOffsetARM => ["[", w[3], c.register, w[4], "]", w[5]]
    case Const => ["$", c.number, w[3]]
    case BareConst => [c.number, w[3]]
    case Reg => ["%", c.register, w[3]]
  }

  function LooseFront(c: Captures, w: seq<string>): seq<string>
    requires |w| == 8
  {
    [w[0], c.size, if c.isFloat then "f" else [], w[1], "@", w[2]]
  }

  function LoosePieces(p: Pattern, c: Captures, w: seq<string>): seq<string>
    requires |w| == 8
  {
    LooseFront(c, w) + LooseLocation(p, c, w)
  }

  lemma FillersAreSpace(w: seq<string>)
    requires forall i :: 0 <= i < |w| ==> IsFiller(w[i])
    ensures forall i :: 0 <= i < |w| ==> Fits(WS, w[i])
  {
    forall i, j | 0 <= i < |w| && 0 <= j < |w[i]| ensures InClass(Space, w[i][j]) {
      ClassTable(w[i][j]);
    }
  }

  lemma LooseLocationFits(p: Pattern, c: Captures, w: seq<string>)
    requires WellFormed(p, c) && |w| == 8 && forall i :: 0 <= i < 8 ==> Fits(WS, w[i])
    ensures |LooseLocation(p, c, w)| == |LocationElems(p)|
    ensures forall i :: 0 <= i < |LocationElems(p)| ==> Fits(LocationElems(p)[i], LooseLocation(p, c, w)[i])
  {
  }

  lemma LooseFrontFits(c: Captures, w: seq<string>)
    requires IsNumeral(c.size) && |w| == 8 && forall i :: 0 <= i < 8 ==> Fits(WS, w[i])
    ensures forall i :: 0 <= i < 6 ==> Fits([WS, Num, Opt('f'), WS, Lit('@'), WS][i], LooseFront(c, w)[i])
  {
  }

  lemma LoosePiecesFit(p: Pattern, c: Captures, w: seq<string>)
    requires WellFormed(p, c) && |w| == 8 && forall i :: 0 <= i < 8 ==> Fits(WS, w[i])
    ensures FitsAll(RegexOf(p), LoosePieces(p, c, w))
  {
    LooseLocationFits(p, c, w);
    LooseFrontFits(c, w);
    PatternElems(p);
    var pieces, es := LoosePieces(p, c, w), Elems(RegexOf(p));
    forall i | 0 <= i < |pieces| ensures Fits(es[i], pieces[i]) {
      if i >= 6 {
        assert es[i] == LocationElems(p)[i - 6] && pieces[i] == LooseLocation(p, c, w)[i - 6];
      } else {
        assert es[i] == [WS, Num, Opt('f'), WS, Lit('@'), WS][i] && pieces[i] == LooseFront(c, w)[i];
      }
    }
  }

  lemma CapturesOfLoose(p: Pattern, c: Captures, w: seq<string>)
    requires WellFormed(p, c) && |w| == 8
    ensures |LoosePieces(p, c, w)| == 6 + |LocationElems(p)|
    ensures CapturesOf(p, LoosePieces(p, c, w)) == c
  {
  }

  /** A pattern recovers the captures whatever whitespace stands between the parts. */
  lemma CaptureLoose(p: Pattern, c: Captures, w: seq<string>)
    requires WellFormed(p, c) && |w| == 8 && forall i :: 0 <= i < 8 ==> IsFiller(w[i])
    ensures Capture(p, Concat(LoosePieces(p, c, w))) == Some(c)
  {
    var pieces := LoosePieces(p, c, w);
    FillersAreSpace(w);
    LoosePiecesFit(p, c, w);
    MatchesMeaning(RegexOf(p), Concat(pieces), pieces);
    FindExact(p, Concat(pieces), pieces);
    CapturesOfLoose(p, c, w);
  }

  lemma SpelledFirst(p: Pattern, c: Captures)
    requires WellFormed(p, c)
    ensures FirstMatch(CASCADE, Spell(p, c)) == Some(p)
  {
    var s := Spell(p, c);
    CaptureSpelled(p, c);
    if p == Reg {
      forall c' ensures !Spelling(BareConst, s, c') {
        SpellingIsCapture(BareConst, s, c');
        SpelledRegisterIsNoNumber(c);
      }
    }
    UniqueReading(p, s);
  }

  lemma SpelledRegisterIsNoNumber(c: Captures)
    requires WellFormed(Reg, c)
    ensures Find(BareConst, Spell(Reg, c)).None?
  {
    var s := Spell(Reg, c);
    FindSpelled(Reg, c);
    assert SpellPieces(Reg, c)[6] == "%";
    if Find(BareConst, s).Some? {
      BareConstOverlap(s);
      assert false;
    }
  }

  // ----- spelled arguments carry no outer whitespace -----

  lemma SpellTrimmed(p: Pattern, c: Captures)
    requires WellFormed(p, c)
    ensures Spell(p, c) != [] && IsTrimmed(Spell(p, c))
  {
    LastPiece(p, c);
    SpellFirst(p, c);
    SpellLast(p, c);
  }

  lemma SpellFirst(p: Pattern, c: Captures)
    requires c.size != []
    ensures Spell(p, c) != [] && Spell(p, c)[0] == c.size[0]
  {
    var pieces := SpellPieces(p, c);
    assert pieces[1..] == [c.size] + pieces[2..];
    assert Concat(pieces[1..]) == c.size + Concat(pieces[1..][1..]);
    assert Spell(p, c) == [] + Concat(pieces[1..]);
  }

  lemma SpellLast(p: Pattern, c: Captures)
    requires WellFormed(p, c)
    ensures |LocationPieces(p, c)| >= 2
    ensures var s, last := Spell(p, c), LocationPieces(p, c)[|LocationPieces(p, c)| - 2];
      s != [] && last != [] && s[|s| - 1] == last[|last| - 1]
  {
    LastPiece(p, c);
    var pieces := SpellPieces(p, c);
    var n := |pieces|;
    var last := pieces[n - 2];
    assert pieces == pieces[..n - 2] + [last] + [[]];
    ConcatSnoc(pieces[..n - 2] + [last], []);
    ConcatSnoc(pieces[..n - 2], last);
  }

  lemma LastPiece(p: Pattern, c: Captures)
    requires WellFormed(p, c)
    ensures |LocationPieces(p, c)| >= 2
    ensures LocationPieces(p, c)[|LocationPieces(p, c)| - 1] == []
    ensures var last := LocationPieces(p, c)[|LocationPieces(p, c)| - 2];
      last != [] && !IsUnicodeSpace(last[|last| - 1])
    ensures !IsUnicodeSpace(c.size[0])
  {
  }

  // ----- printing -----

  /** Can this location be written in this syntax? */
  predicate Styled(p: Pattern, loc: Location) {
    && (match p
        case RegDerefWithOffset | RegDerefWithOffsetARM => loc.Memory?
        case RegDerefNoOffset | RegDerefNoOffsetARM => loc.Memory? && loc.offset == 0
        case Const | BareConst => loc.Immediate?
        case Reg => loc.Register?)
    && (!loc.Immediate? ==> loc.name != [] && AllIn(Alnum, loc.name))
  }

  function CapturesFor(p: Pattern, arg: Arg): (c: Captures)
    requires Styled(p, arg.loc)
    ensures WellFormed(p, c)
  {
    Captures(
      Numeral(arg.size),
      arg.isFloat,
      if !HasNumber(p) then [] else if arg.loc.Memory? then Numeral(arg.loc.offset) else Numeral(arg.loc.value),
      if arg.loc.Immediate? then [] else arg.loc.name)
  }

  /** Canonical text of an argument in the syntax of pattern `p`. */
  function Print(p: Pattern, arg: Arg): string
    requires Styled(p, arg.loc)
  {
    Spell(p, CapturesFor(p, arg))
  }

  /** Printing and reading back is the identity, for every size, number and register name. */
  lemma PrintRead(p: Pattern, arg: Arg)
    requires Styled(p, arg.loc)
    ensures ReadArg(Print(p, arg)) == Some(arg)
  {
    var c := CapturesFor(p, arg);
    ReadSpelled(p, c);
    NumeralRoundTrip(arg.size);
    if arg.loc.Memory? {
      NumeralRoundTrip(arg.loc.offset);
    } else if arg.loc.Immediate? {
      NumeralRoundTrip(arg.loc.value);
    }
  }

  lemma ReadSpelled(p: Pattern, c: Captures)
    requires WellFormed(p, c)
    ensures TrimSpace(Spell(p, c)) == Spell(p, c) != []
    ensures ReadArg(Spell(p, c)) == Some(ArgOf(p, c))
  {
    var s := Spell(p, c);
    SpellTrimmed(p, c);
    TrimSpaceUnique([], s, []);
    assert [] + s + [] == s;
    SpelledFirst(p, c);
    CaptureSpelled(p, c);
  }

  // ----- where the order of the patterns shows -----

  lemma BareNumberMatchesBoth(arg: Arg)
    requires arg.loc.Immediate? && arg.loc.value >= 0
    ensures var text := Print(BareConst, arg);
      TrimSpace(text) == text != [] && Find(BareConst, text).Some? && Find(Reg, text).Some?
  {
    var c, n := CapturesFor(BareConst, arg), arg.loc.value;
    ReadSpelled(BareConst, c);
    FindSpelled(BareConst, c);
    assert SpellPieces(BareConst, c)[6] == Numeral(n) == Digits(n);
    assert InClass(Digit, Digits(n)[0]);
    BareConstOverlap(Print(BareConst, arg));
  }

  lemma ReadByFirst(order: seq<Pattern>, text: string)
    requires FirstMatch(order, TrimSpace(text)).Some?
    ensures ReadBy(order, text).Some?
    ensures FirstMatch(order, TrimSpace(text)) == Some(Reg) ==> ReadBy(order, text).value.loc.Register?
  {
  }

  lemma SameFirst(order: seq<Pattern>, order': seq<Pattern>, text: string)
    requires FirstMatch(order, TrimSpace(text)) == FirstMatch(order', TrimSpace(text))
    ensures ReadBy(order, text) == ReadBy(order', text)
  {
  }

  lemma OrderDecides(order: seq<Pattern>, text: string)
    requires Complete(order) && Find(BareConst, TrimSpace(text)).Some? && Find(Reg, TrimSpace(text)).Some?
    ensures ReadBy(order, text).Some?
    ensures
      if BareConstFirst(order) then ReadBy(order, text) == ReadArg(text)
      else ReadBy(order, text).value.loc.Register?
  {
    assert BareConst in order;
    FirstMatchPrefersBareConst(order, TrimSpace(text));
    ReadByFirst(order, text);
    if BareConstFirst(order) {
      OrderIrrelevantAt(order, TrimSpace(text));
      SameFirst(order, CASCADE, text);
    }
  }

  /** A bare number such as 4@5 is a constant, but a register name when that pattern is tried first. */
  lemma ReadBareNumber(order: seq<Pattern>, arg: Arg)
    requires Complete(order) && arg.loc.Immediate? && arg.loc.value >= 0
    ensures TrimSpace(Print(BareConst, arg)) != [] && ReadBy(order, Print(BareConst, arg)).Some?
    ensures var read := ReadBy(order, Print(BareConst, arg)).value;
      if BareConstFirst(order) then read == arg else read.loc.Register?
  {
    BareNumberMatchesBoth(arg);
    OrderDecides(order, Print(BareConst, arg));
    PrintRead(BareConst, arg);
  }
}
