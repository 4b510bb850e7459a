/**
 The seven anchored regular expressions of the argument parser and the cascade that tries them in
 order: each is deterministic, and only two of them can match the same text.
 */
module Patterns {
  import opened Wrappers
  import opened Text
  import opened Regexes

  // ----- the seven patterns -----

  datatype Pattern =
    | RegDerefWithOffset
    | RegDerefWithOffsetARM
    | RegDerefNoOffset
    | RegDerefNoOffsetARM
    | Const
    | BareConst
    | Reg

  const WS: Elem := Star(Space)

  /** `^\s*(-?\d+)(f?)\s*@\s*`, the common front of all seven. */
  function SizePart(): Regex {
    Then(WS, Then(Num, Then(Opt('f'), Then(WS, Then(Lit('@'), Then(WS, End))))))
  }

  /** `[a-z0-9]+\s*` and then the closing bracket and `\s*$`. */
  function RegisterThen(close: char): Regex {
    Then(Plus(Alnum), Then(WS, Then(Lit(close), Then(WS, End))))
  }

  /** `\(\s*%([a-z0-9]+)\s*\)\s*$` */
  function ParenthesisedRegister(): Regex {
    Then(Lit('('), Then(WS, Then(Lit('%'), RegisterThen(')'))))
  }

  /** `,\s*(-?\d+)\s*\]\s*$` */
  function CommaOffset(): Regex {
    Then(Lit(','), Then(WS, Then(Num, Then(WS, Then(Lit(']'), Then(WS, End))))))
  }

  /** What follows the common front, up to the end of the text. */
  function LocationPart(p: Pattern): Regex {
    match p
    case RegDerefWithOffset => Then(Num, Then(WS, ParenthesisedRegister()))
    case RegDerefWithOffsetARM => Then(Lit('['), Then(WS, Then(Plus(Alnum), Then(WS, CommaOffset()))))
    case RegDerefNoOffset => ParenthesisedRegister()
    case RegDerefNoOffsetARM => Then(Lit('['), Then(WS, RegisterThen(']')))
    case Const => Then(Lit('$'), Then(Num, Then(WS, End)))
    case BareConst => Then(Num, Then(WS, End))
    case Reg => Then(Opt('%'), Then(Plus(Alnum), Then(WS, End)))
  }

  function RegexOf(p: Pattern): Regex {
    Append(SizePart(), LocationPart(p))
  }

  lemma RegisterThenDeterministic(close: char)
    requires close == ')' || close == ']'
    ensures Deterministic(RegisterThen(close))
    ensures forall c :: First(RegisterThen(close), c) <==> InClass(Alnum, c)
  {
  }

  lemma ParenthesisedRegisterDeterministic()
    ensures Deterministic(ParenthesisedRegister())
    ensures forall c :: First(ParenthesisedRegister(), c) <==> c == '('
  {
  }

  lemma CommaOffsetDeterministic()
    ensures Deterministic(CommaOffset())
    ensures forall c :: First(CommaOffset(), c) <==> c == ','
  {
  }

  lemma LocationPartDeterministic(p: Pattern)
    ensures Deterministic(LocationPart(p))
  {
    RegisterThenDeterministic(']');
    ParenthesisedRegisterDeterministic();
    CommaOffsetDeterministic();
    Prepend(Plus(Alnum), Then(WS, CommaOffset()));
    Prepend(Plus(Alnum), Then(WS, End));
  }

  /** The first character of a location: never a space, and it tells most patterns apart. */
  predicate LocationStart(p: Pattern, c: char) {
    match p
    case RegDerefWithOffset | BareConst => c == '-' || InClass(Digit, c)
    case RegDerefNoOffset => c == '('
    case RegDerefWithOffsetARM | RegDerefNoOffsetARM => c == '['
    case Const => c == '$'
    case Reg => c == '%' || InClass(Alnum, c)
  }

  lemma LocationPartFirst(p: Pattern, c: char)
    ensures First(LocationPart(p), c) <==> LocationStart(p, c)
  {
  }

  lemma PatternDeterministic(p: Pattern)
    ensures Deterministic(RegexOf(p))
  {
    var t := LocationPart(p);
    LocationPartDeterministic(p);
    forall c ensures First(t, c) <==> LocationStart(p, c) {
      LocationPartFirst(p, c);
    }
    Prepend(WS, t);
    var u := Then(Lit('@'), Then(WS, t));
    Prepend(Lit('@'), Then(WS, t));
    Prepend(WS, u);
    Prepend(Opt('f'), Then(WS, u));
    Prepend(Num, Then(Opt('f'), Then(WS, u)));
    Prepend(WS, Then(Num, Then(Opt('f'), Then(WS, u))));
    RegexShape(p);
  }

  lemma RegexShape(p: Pattern)
    ensures RegexOf(p) ==
      var u := Then(Lit('@'), Then(WS, LocationPart(p)));
      Then(WS, Then(Num, Then(Opt('f'), Then(WS, u))))
  {
  }

  // ----- exactness of the recogniser -----

  function LocationElems(p: Pattern): seq<Elem> {
    match p
    case RegDerefWithOffset => [Num, WS, Lit('('), WS, Lit('%'), Plus(Alnum), WS, Lit(')'), WS]
    case RegDerefWithOffsetARM => [Lit('['), WS, Plus(Alnum), WS, Lit(','), WS, Num, WS, Lit(']'), WS]
    case RegDerefNoOffset => [Lit('('), WS, Lit('%'), Plus(Alnum), WS, Lit(')'), WS]
    case RegDerefNoOffsetARM => [Lit('['), WS, Plus(Alnum), WS, Lit(']'), WS]
    case Const => [Lit('$'), Num, WS]
    case BareConst => [Num, WS]
    case Reg => [Opt('%'), Plus(Alnum), WS]
  }

  lemma LocationElemsOf(p: Pattern)
    ensures Elems(LocationPart(p)) == LocationElems(p)
  {
    match p
    case RegDerefWithOffset => OffsetElems();
    case RegDerefWithOffsetARM => OffsetARMElems();
    case RegDerefNoOffset => NoOffsetElems();
    case _ =>
  }

  lemma OffsetElems()
    ensures Elems(LocationPart(RegDerefWithOffset)) == LocationElems(RegDerefWithOffset)
  {
  }

  lemma OffsetARMElems()
    ensures Elems(LocationPart(RegDerefWithOffsetARM)) == LocationElems(RegDerefWithOffsetARM)
  {
  }

  lemma NoOffsetElems()
    ensures Elems(LocationPart(RegDerefNoOffset)) == LocationElems(RegDerefNoOffset)
  {
  }

  lemma SizeElemsOf()
    ensures Elems(SizePart()) == [WS, Num, Opt('f'), WS, Lit('@'), WS]
  {
  }

  /** `FindStringSubmatch` for one pattern: the pieces of the only match, or none. */
  function Find(p: Pattern, s: string): (r: Option<seq<string>>)
    ensures r.Some? ==> |r.value| == Length(RegexOf(p))
  {
    Run(RegexOf(p), s)
  }

  /** The recogniser returns pieces exactly when they are a match; so captures are unique. */
  lemma FindExact(p: Pattern, s: string, pieces: seq<string>)
    ensures Find(p, s) == Some(pieces) <==> Matches(RegexOf(p), s, pieces)
  {
    RunSound(RegexOf(p), s);
    PatternDeterministic(p);
    if Matches(RegexOf(p), s, pieces) {
      RunComplete(RegexOf(p), s, pieces);
    }
  }

  // ----- which patterns can match the same text -----

  predicate HasMark(p: Pattern, c: char) {
    match p
    case RegDerefWithOffset | RegDerefNoOffset => c == '('
    case RegDerefWithOffsetARM => c == '[' || c == ','
    case RegDerefNoOffsetARM => c == '['
    case Const => c == '$'
    case BareConst | Reg => false
  }

  lemma LocationMarks(p: Pattern, c: char)
    requires IsMark(c)
    ensures MarksAreLiterals(LocationPart(p)) && (Names(LocationPart(p), c) <==> HasMark(p, c))
  {
  }

  lemma MarksNamed(p: Pattern, c: char)
    requires IsMark(c)
    ensures MarksAreLiterals(RegexOf(p)) && (Names(RegexOf(p), c) <==> HasMark(p, c))
  {
    RegexShape(p);
    LocationMarks(p, c);
    var u := Then(Lit('@'), Then(WS, LocationPart(p)));
    assert MarksAreLiterals(u) && (Names(u, c) <==> HasMark(p, c));
    var w := Then(Opt('f'), Then(WS, u));
    assert MarksAreLiterals(w) && (Names(w, c) <==> HasMark(p, c));
  }

  lemma MarksOfPattern(p: Pattern, s: string, c: char)
    requires IsMark(c) && Find(p, s).Some?
    ensures c in s <==> HasMark(p, c)
  {
    MarksNamed(p, c);
    FindExact(p, s, Find(p, s).value);
    MarksOfMatch(RegexOf(p), s, Find(p, s).value, c);
  }

  /** Two patterns that match one text agree on the common front and on where the location begins. */
  lemma CommonFront(p: Pattern, q: Pattern, s: string) returns (front: seq<string>, rest: string)
    requires Find(p, s).Some? && Find(q, s).Some?
    ensures |front| == 6
    ensures Run(LocationPart(p), rest).Some? && Find(p, s).value == front + Run(LocationPart(p), rest).value
    ensures Run(LocationPart(q), rest).Some? && Find(q, s).value == front + Run(LocationPart(q), rest).value
  {
    RunAppend(SizePart(), LocationPart(p), s);
    RunAppend(SizePart(), LocationPart(q), s);
    front, rest := RunFront(SizePart(), s).pieces, RunFront(SizePart(), s).rest;
    SizeElemsOf();
  }

  lemma LocationNonEmpty(p: Pattern, rest: string)
    requires Run(LocationPart(p), rest).Some?
    ensures rest != [] && LocationStart(p, rest[0])
  {
  }

  /** The only two patterns that can match the same text are the bare constant and the register. */
  lemma CascadeUnambiguous(p: Pattern, q: Pattern, s: string)
    requires p != q && Find(p, s).Some? && Find(q, s).Some?
    ensures (p == BareConst && q == Reg) || (p == Reg && q == BareConst)
  {
    SameMarks(p, q, s, '(');
    SameMarks(p, q, s, '[');
    SameMarks(p, q, s, ',');
    SameMarks(p, q, s, '$');
    var _, rest := CommonFront(p, q, s);
    LocationNonEmpty(p, rest);
    LocationNonEmpty(q, rest);
  }

  lemma SameMarks(p: Pattern, q: Pattern, s: string, c: char)
    requires IsMark(c) && Find(p, s).Some? && Find(q, s).Some?
    ensures HasMark(p, c) <==> HasMark(q, c)
  {
    MarksOfPattern(p, s, c);
    MarksOfPattern(q, s, c);
  }

  /**
   Exactly the non-negative bare numbers also read as a register name; then both patterns capture
   the same size and flag, and the register name is the number's digits.
   */
  lemma BareConstOverlap(s: string)
    requires Find(BareConst, s).Some?
    ensures |Find(BareConst, s).value| == 8 && Find(BareConst, s).value[6] != []
    ensures Find(Reg, s).Some? <==> Find(BareConst, s).value[6][0] != '-'
    ensures Find(Reg, s).Some? ==>
      Find(Reg, s).value == Find(BareConst, s).value[..6] + [[]] + Find(BareConst, s).value[6..]
  {
    var pieces := Find(BareConst, s).value;
    FindExact(BareConst, s, pieces);
    MatchesMeaning(RegexOf(BareConst), s, pieces);
    BareConstElems();
    RegElems();
    assert Fits(Num, pieces[6]);
    if pieces[6][0] != '-' {
      var alt := pieces[..6] + [[]] + pieces[6..];
      ConcatInsertEmpty(pieces, 6);
      MatchesMeaning(RegexOf(Reg), s, alt);
      FindExact(Reg, s, alt);
    } else if Find(Reg, s).Some? {
      var front, rest := CommonFront(BareConst, Reg, s);
      assert pieces[6] == Run(LocationPart(BareConst), rest).value[0];
      RunSound(LocationPart(BareConst), rest);
      LocationNonEmpty(Reg, rest);
      assert false;
    }
  }

  lemma BareConstElems()
    ensures Elems(RegexOf(BareConst)) == [WS, Num, Opt('f'), WS, Lit('@'), WS, Num, WS]
  {
  }

  lemma RegElems()
    ensures Elems(RegexOf(Reg)) == [WS, Num, Opt('f'), WS, Lit('@'), WS, Opt('%'), Plus(Alnum), WS]
  {
  }

  // ----- the order of the cascade -----

  /** The order in which the parser tries the patterns. */
  const CASCADE: seq<Pattern> :=
    [RegDerefWithOffset, RegDerefWithOffsetARM, RegDerefNoOffset, RegDerefNoOffsetARM, Const, BareConst, Reg]

  function FirstMatch(order: seq<Pattern>, s: string): (r: Option<Pattern>)
    ensures r.Some? ==> r.value in order && Find(r.value, s).Some?
    ensures r.None? ==> forall p :: p in order ==> Find(p, s).None?
  {
    if order == [] then None
    else if Find(order[0], s).Some? then Some(order[0])
    else FirstMatch(order[1..], s)
  }

  predicate Complete(order: seq<Pattern>) {
    forall p: Pattern :: p in order
  }

  /** The bare constant is tried before the register. */
  predicate BareConstFirst(order: seq<Pattern>) {
    order != [] && (order[0] == BareConst || (order[0] != Reg && BareConstFirst(order[1..])))
  }

  lemma {:induction false} FirstMatchPrefersBareConst(order: seq<Pattern>, s: string)
    requires Find(BareConst, s).Some? && Find(Reg, s).Some? && (BareConst in order || Reg in order)
    ensures FirstMatch(order, s) == Some(if BareConstFirst(order) then BareConst else Reg)
  {
    if order[0] != BareConst && order[0] != Reg {
      if Find(order[0], s).Some? {
        CascadeUnambiguous(order[0], BareConst, s);
        assert false;
      }
      FirstMatchPrefersBareConst(order[1..], s);
    }
  }

  /** Any complete order that tries the bare constant before the register finds the same pattern. */
  lemma OrderIrrelevantAt(order: seq<Pattern>, s: string)
    requires Complete(order) && BareConstFirst(order)
    ensures FirstMatch(order, s) == FirstMatch(CASCADE, s)
  {
    CascadeFacts();
    var r, r' := FirstMatch(order, s), FirstMatch(CASCADE, s);
    assert BareConst in order && BareConst in CASCADE;
    if Find(BareConst, s).Some? && Find(Reg, s).Some? {
      FirstMatchPrefersBareConst(order, s);
      FirstMatchPrefersBareConst(CASCADE, s);
    } else if r.Some? && r' != r {
      assert r'.Some?;
      CascadeUnambiguous(r.value, r'.value, s);
    }
  }

  lemma CascadeFacts()
    ensures Complete(CASCADE) && BareConstFirst(CASCADE)
  {
    assert forall p: Pattern :: p in CASCADE by {
      forall p: Pattern ensures p in CASCADE {
        assert p == CASCADE[0] || p == CASCADE[1] || p == CASCADE[2] || p == CASCADE[3]
            || p == CASCADE[4] || p == CASCADE[5] || p == CASCADE[6];
      }
    }
    assert BareConstFirst(CASCADE[5..]);
    assert BareConstFirst(CASCADE[4..]) by { assert CASCADE[4..][1..] == CASCADE[5..]; }
    assert BareConstFirst(CASCADE[3..]) by { assert CASCADE[3..][1..] == CASCADE[4..]; }
    assert BareConstFirst(CASCADE[2..]) by { assert CASCADE[2..][1..] == CASCADE[3..]; }
    assert BareConstFirst(CASCADE[1..]) by { assert CASCADE[1..][1..] == CASCADE[2..]; }
  }
}
