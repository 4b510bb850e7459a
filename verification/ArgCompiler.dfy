/** Compiling one USDT argument to its specification, through the pattern cascade. */
module ArgCompiler {
  import opened Wrappers
  import opened Machine
  import opened Text
  import opened Patterns
  import opened ArgSyntax
  import opened Registers
  import opened Specs

  datatype ParseError =
    | EmptyArgument
    | InvalidSize
    | InvalidNumber
    | UnknownRegister
    | Unrecognized
    | TooManyArguments

  predicate IsInt64(x: int) {
    -0x8000_0000_0000_0000 <= x < 0x8000_0000_0000_0000
  }

  // ----- one argument -----

  /** The shift that narrows 64 bits to |size| bytes, as far as `int8` can hold it. */
  function Bitshift(size: int): s8 {
    ToS8(64 - 8 * Abs(size))
  }

  /** What an argument compiles to; sizes, then numbers, then registers are rejected. */
  function CompileArg(arch: Arch, arg: Arg): Result<ArgSpec, ParseError> {
    if !IsInt64(arg.size) then Err(InvalidSize)
    else
      match arg.loc
      case Immediate(v) =>
        if !IsInt64(v) then Err(InvalidNumber)
        else Ok(ArgSpec(ToU64(v), ARG_CONST, REG_NONE, arg.size < 0, Bitshift(arg.size), arg.isFloat))
      case Register(name) => CompileRegister(arch, arg, ARG_REG, name, 0)
      case Memory(name, offset) =>
        if !IsInt64(offset) then Err(InvalidNumber)
        else CompileRegister(arch, arg, ARG_REG_DEREF, name, offset)
  }

  function CompileRegister(arch: Arch, arg: Arg, kind: u32, name: string, offset: int): Result<ArgSpec, ParseError> {
    match LookupRegister(arch, name)
    case None => Err(UnknownRegister)
    case Some(id) => Ok(ArgSpec(ToU64(offset), kind, id, arg.size < 0, Bitshift(arg.size), arg.isFloat))
  }

  /** Compiling the text of one argument with the patterns tried in some order. */
  function ParseBy(arch: Arch, order: seq<Pattern>, text: string): Result<ArgSpec, ParseError> {
    if TrimSpace(text) == [] then Err(EmptyArgument)
    else match ReadBy(order, text)
      case None => Err(Unrecognized)
      case Some(arg) => CompileArg(arch, arg)
  }

  function ParseArg(arch: Arch, text: string): Result<ArgSpec, ParseError> {
    ParseBy(arch, CASCADE, text)
  }

  lemma WrapDistance(x: int) returns (k: int)
    ensures ToS64(x) == x + 0x100 * k
  {
    var q := x / TWO_64;
    assert x == q * TWO_64 + x % TWO_64;
    k := -(if x % TWO_64 == ToS64(x) then q else q + 1) * 0x100_0000_0000_0000;
  }

  /** Wrapping to `int64` on the way does not change what is left after narrowing to `int8`. */
  lemma NarrowAfterWraps(sz: int)
    ensures ToS8(ToS64(64 - ToS64(sz * 8))) == ToS8(64 - 8 * sz)
  {
    var k := WrapDistance(sz * 8);
    var l := WrapDistance(64 - ToS64(sz * 8));
    assert ToS64(64 - ToS64(sz * 8)) == 64 - 8 * sz + 0x100 * (l - k);
    SameResidue(64 - 8 * sz, l - k);
  }

  lemma SameResidue(x: int, k: int)
    ensures ToS8(x + 0x100 * k) == ToS8(x)
  {
  }

  /** The sign and the shift of a size, in `int64` arithmetic with wrap-around. */
  method SizeFields(argSz: s64) returns (signed: bool, bitshift: s8)
    ensures signed == (argSz < 0)
    ensures bitshift == Bitshift(argSz)
  {
    signed := argSz < 0;
    var sz: int := argSz;
    if sz < 0 {
      sz := ToS64(-sz);
    }
    ghost var k := WrapDistance(Abs(argSz));
    SameResidue(64 - 8 * Abs(argSz), -8 * k);
    NarrowAfterWraps(sz);
    bitshift := ToS8(ToS64(64 - ToS64(sz * 8)));
  }

  /** The branches for registers and memory. */
  method BuildRegister(arch: Arch, kind: u32, p: Pattern, c: Captures) returns (r: Result<ArgSpec, ParseError>)
    requires WellFormed(p, c) && HasRegister(p) && kind == if p == Reg then ARG_REG else ARG_REG_DEREF
    ensures r == CompileArg(arch, ArgOf(p, c))
  {
    var argSz := ParseInt64(c.size);
    if argSz.None? {
      return Err(InvalidSize);
    }
    var spec := ZERO_ARG.(argType := kind);
    if HasNumber(p) {
      var offset := ParseInt64(c.number);
      if offset.None? {
        return Err(InvalidNumber);
      }
      spec := spec.(valOff := ToU64(offset.value));
    }
    var regID := LookupRegister(arch, c.register);
    if regID.None? {
      return Err(UnknownRegister);
    }
    var signed, bitshift := SizeFields(argSz.value);
    return Ok(spec.(regID := regID.value, signed := signed, isFloat := c.isFloat, bitshift := bitshift));
  }

  /** The branches for constants, with and without the dollar sign. */
  method BuildConstant(ghost arch: Arch, p: Pattern, c: Captures) returns (r: Result<ArgSpec, ParseError>)
    requires WellFormed(p, c) && !HasRegister(p)
    ensures r == CompileArg(arch, ArgOf(p, c))
  {
    var argSz := ParseInt64(c.size);
    if argSz.None? {
      return Err(InvalidSize);
    }
    var constVal := ParseInt64(c.number);
    if constVal.None? {
      return Err(InvalidNumber);
    }
    var signed, bitshift := SizeFields(argSz.value);
    return Ok(ArgSpec(ToU64(constVal.value), ARG_CONST, REG_NONE, signed, bitshift, c.isFloat));
  }

  /** A match decides the reading, whatever order the patterns are tried in. */
  lemma Decided(p: Pattern, text: string)
    ensures var s := TrimSpace(text);
      Capture(p, s).Some? && (p == Reg ==> Capture(BareConst, s).None?) ==>
        && WellFormed(p, Capture(p, s).value)
        && ReadArg(text) == Some(ArgOf(p, Capture(p, s).value))
  {
    var s := TrimSpace(text);
    if Capture(p, s).Some? && (p == Reg ==> Capture(BareConst, s).None?) {
      CapturesWellFormed(p, s);
      forall c ensures p == Reg ==> !Spelling(BareConst, s, c) {
        SpellingIsCapture(BareConst, s, c);
      }
      UniqueReading(p, s);
    }
  }

  /** Tries the seven patterns in order; the first match compiles or is rejected. */
  method ParseUSDTArgSpec(arch: Arch, text: string) returns (r: Result<ArgSpec, ParseError>)
    ensures r == ParseArg(arch, text)
  {
    var argStr := TrimSpace(text);
    if argStr == "" {
      return Err(EmptyArgument);
    }
    var m := Capture(RegDerefWithOffset, argStr);
    if m.Some? {
      Decided(RegDerefWithOffset, text);
      r := BuildRegister(arch, ARG_REG_DEREF, RegDerefWithOffset, m.value);
      return;
    }
    m := Capture(RegDerefWithOffsetARM, argStr);
    if m.Some? {
      Decided(RegDerefWithOffsetARM, text);
      r := BuildRegister(arch, ARG_REG_DEREF, RegDerefWithOffsetARM, m.value);
      return;
    }
    m := Capture(RegDerefNoOffset, argStr);
    if m.Some? {
      Decided(RegDerefNoOffset, text);
      r := BuildRegister(arch, ARG_REG_DEREF, RegDerefNoOffset, m.value);
      return;
    }
    m := Capture(RegDerefNoOffsetARM, argStr);
    if m.Some? {
      Decided(RegDerefNoOffsetARM, text);
      r := BuildRegister(arch, ARG_REG_DEREF, RegDerefNoOffsetARM, m.value);
      return;
    }
    m := Capture(Const, argStr);
    if m.Some? {
      Decided(Const, text);
      r := BuildConstant(arch, Const, m.value);
      return;
    }
    m := Capture(BareConst, argStr);
    if m.Some? {
      Decided(BareConst, text);
      r := BuildConstant(arch, BareConst, m.value);
      return;
    }
    m := Capture(Reg, argStr);
    if m.Some? {
      Decided(Reg, text);
      r := BuildRegister(arch, ARG_REG, Reg, m.value);
      return;
    }
    return Err(Unrecognized);
  }

  // ----- what the stored shift means -----

  /** The number of bytes a size selects once shift counts are taken modulo 64. */
  function EffectiveBytes(size: int): (n: nat)
    ensures 1 <= n <= 8
    ensures 1 <= Abs(size) <= 8 ==> n == Abs(size)
  {
    (Abs(size) - 1) % 8 + 1
  }

  /**
   Sizes are not validated. The stored shift is a proper one (0 to 56) exactly when the magnitude
   is 1 to 8 modulo 32, and modulo 64 it always leaves the effective bytes.
   */
  lemma BitshiftExact(size: int)
    ensures (Bitshift(size) - (64 - 8 * Abs(size))) % 0x100 == 0
    ensures 0 <= Bitshift(size) <= 56 <==> 1 <= Abs(size) % 32 <= 8
    ensures 1 <= Abs(size) % 32 <= 8 ==> Bitshift(size) == 64 - 8 * (Abs(size) % 32)
    ensures Bitshift(size) % 64 == 64 - 8 * EffectiveBytes(size)
  {
    var q, r := Abs(size) / 32, Abs(size) % 32;
    assert Abs(size) == 32 * q + r;
    SameResidue(64 - 8 * r, -q);
    assert Bitshift(size) == ToS8(64 - 8 * r) by { assert 64 - 8 * r + 0x100 * -q == 64 - 8 * Abs(size); }
    SameBytes(r - 1, 4 * q);
    assert EffectiveBytes(size) == (r - 1) % 8 + 1;
    SmallBitshift(r);
    NarrowDistance(64 - 8 * Abs(size));
  }

  lemma SameBytes(x: int, k: int)
    ensures (x + 8 * k) % 8 == x % 8
  {
  }

  lemma SmallBitshift(r: int)
    requires 0 <= r < 32
    ensures 0 <= ToS8(64 - 8 * r) <= 56 <==> 1 <= r <= 8
    ensures 1 <= r <= 8 ==> ToS8(64 - 8 * r) == 64 - 8 * r
    ensures ToS8(64 - 8 * r) % 64 == 64 - 8 * ((r - 1) % 8 + 1)
  {
    var x := 64 - 8 * r;
    assert x % 0x100 == if r <= 8 then x else x + 0x100;
    var a, b := (r - 1) / 8, (r - 1) % 8;
    assert x == 64 * -a + (56 - 8 * b);
    DivModUnique(x, 64, -a, 56 - 8 * b);
    NarrowModulo64(x);
  }

  lemma NarrowModulo64(x: int)
    ensures ToS8(x) % 64 == x % 64
  {
    var q := x / 0x100;
    var k := 4 * if x % 0x100 < 0x80 then q else q + 1;
    assert x == ToS8(x) + 64 * k;
    Modulo64(ToS8(x), k);
  }

  lemma Modulo64(x: int, k: int)
    ensures (x + 64 * k) % 64 == x % 64
  {
  }

  lemma NarrowDistance(x: int)
    ensures (ToS8(x) - x) % 0x100 == 0
  {
  }

  // ----- accepted arguments -----

  lemma CompiledRegisterReadable(arch: Arch, arg: Arg, kind: u32, name: string, offset: int)
    requires CompileRegister(arch, arg, kind, name, offset).Ok?
    ensures Readable(arch, CompileRegister(arch, arg, kind, name, offset).value.regID)
    ensures CompileRegister(arch, arg, kind, name, offset).value.argType == kind
  {
    RegisterReadable(arch, name);
  }

  /** Every accepted argument has a kind the interpreter handles and a register it can find. */
  lemma AcceptedIsEvaluable(arch: Arch, text: string, spec: ArgSpec)
    requires ParseArg(arch, text) == Ok(spec)
    ensures spec.argType == ARG_CONST || spec.argType == ARG_REG || spec.argType == ARG_REG_DEREF
    ensures if spec.argType == ARG_CONST then spec.regID == REG_NONE else Readable(arch, spec.regID)
  {
    var arg := ReadArg(text).value;
    match arg.loc
    case Immediate(_) =>
    case Register(name) => CompiledRegisterReadable(arch, arg, ARG_REG, name, 0);
    case Memory(name, offset) => CompiledRegisterReadable(arch, arg, ARG_REG_DEREF, name, offset);
  }

  // ----- which arguments are accepted -----

  /** The number of an argument, if it has one, and its size are `int64`s. */
  predicate NumbersFit(arg: Arg) {
    && -0x8000_0000_0000_0000 <= arg.size < 0x8000_0000_0000_0000
    && match arg.loc
       case Immediate(v) => -0x8000_0000_0000_0000 <= v < 0x8000_0000_0000_0000
       case Register(_) => true
       case Memory(_, offset) => -0x8000_0000_0000_0000 <= offset < 0x8000_0000_0000_0000
  }

  /** The register of an argument, if it has one, is known on the architecture. */
  ghost predicate RegisterKnown(arch: Arch, loc: Location) {
    !loc.Immediate? ==> exists id: byte :: IsRegister(arch, id) && loc.name in RegisterNames(arch, id)
  }

  lemma CompilesExactly(arch: Arch, arg: Arg)
    ensures CompileArg(arch, arg).Ok? <==> NumbersFit(arg) && RegisterKnown(arch, arg.loc)
    ensures CompileArg(arch, arg).Ok? ==> CompileArg(arch, arg).value.isFloat == arg.isFloat
  {
    if !arg.loc.Immediate? {
      NameKnown(arch, arg.loc.name);
    }
  }

  lemma NameKnown(arch: Arch, name: string)
    ensures LookupRegister(arch, name).Some? <==>
      exists id: byte :: IsRegister(arch, id) && name in RegisterNames(arch, id)
  {
    if LookupRegister(arch, name).Some? {
      LookupExactly(arch, name, LookupRegister(arch, name).value);
    }
    forall id: byte | IsRegister(arch, id) && name in RegisterNames(arch, id)
      ensures LookupRegister(arch, name).Some?
    {
      LookupExactly(arch, name, id);
    }
  }

  /**
   A text is accepted if and only if it spells an argument whose numbers are `int64`s and whose
   register is known.
   */
  lemma AcceptedExactly(arch: Arch, text: string)
    ensures ParseArg(arch, text).Ok? <==>
      exists arg :: Spells(text, arg) && NumbersFit(arg) && RegisterKnown(arch, arg.loc)
  {
    if ParseArg(arch, text).Ok? {
      ReadArgSound(text);
      CompilesExactly(arch, ReadArg(text).value);
    }
    if arg :| Spells(text, arg) && NumbersFit(arg) && RegisterKnown(arch, arg.loc) {
      SpelledCompiles(arch, text, arg);
      CompilesExactly(arch, arg);
    }
  }

  lemma SpelledCompiles(arch: Arch, text: string, arg: Arg)
    requires Spells(text, arg)
    ensures ParseArg(arch, text) == CompileArg(arch, arg)
  {
    ReadArgComplete(text, arg);
    if TrimSpace(text) == [] {
      NothingToRead(text);
    }
  }

  /** A text that spells nothing is rejected as empty or as unrecognised. */
  lemma UnreadRejected(arch: Arch, text: string)
    ensures ParseArg(arch, text) == Err(EmptyArgument) <==> TrimSpace(text) == []
    ensures ParseArg(arch, text) == Err(Unrecognized) <==> TrimSpace(text) != [] && Unspelled(text)
  {
    UnspelledExactly(text);
    if TrimSpace(text) == [] {
      NothingToRead(text);
    } else if ReadArg(text).Some? {
      CompileErrors(arch, ReadArg(text).value);
    }
  }

  lemma CompileErrors(arch: Arch, arg: Arg)
    ensures CompileArg(arch, arg) != Err(EmptyArgument) && CompileArg(arch, arg) != Err(Unrecognized)
  {
  }

  /** Why a text that spells an argument is rejected. */
  lemma RejectedExactly(arch: Arch, text: string, arg: Arg)
    requires Spells(text, arg)
    ensures ParseArg(arch, text) == Err(InvalidSize) <==>
      !(-0x8000_0000_0000_0000 <= arg.size < 0x8000_0000_0000_0000)
    ensures ParseArg(arch, text) == Err(InvalidNumber) <==>
      -0x8000_0000_0000_0000 <= arg.size < 0x8000_0000_0000_0000 && !NumbersFit(arg)
    ensures ParseArg(arch, text) == Err(UnknownRegister) <==> NumbersFit(arg) && !RegisterKnown(arch, arg.loc)
  {
    SpelledCompiles(arch, text, arg);
    CompilesExactly(arch, arg);
    if !arg.loc.Immediate? {
      NameKnown(arch, arg.loc.name);
    }
  }

  lemma ParseSpelled(arch: Arch, p: Pattern, c: Captures)
    requires WellFormed(p, c)
    ensures ParseArg(arch, Spell(p, c)) == CompileArg(arch, ArgOf(p, c))
  {
    ReadSpelled(p, c);
  }

  /**
   The x86-64 and arm64 spellings of a memory argument, with and without a zero offset, and the two
   spellings of a constant are interchangeable: same specification or same rejection, for every
   size, number and register text.
   */
  lemma SyntaxEquivalence(arch: Arch, size: string, isFloat: bool, number: string, register: string)
    requires IsNumeral(size) && IsNumeral(number) && register != [] && AllIn(Alnum, register)
    ensures ParseArg(arch, Spell(RegDerefWithOffset, Captures(size, isFloat, number, register)))
      == ParseArg(arch, Spell(RegDerefWithOffsetARM, Captures(size, isFloat, number, register)))
    ensures ParseArg(arch, Spell(RegDerefNoOffset, Captures(size, isFloat, [], register)))
      == ParseArg(arch, Spell(RegDerefNoOffsetARM, Captures(size, isFloat, [], register)))
      == ParseArg(arch, Spell(RegDerefWithOffset, Captures(size, isFloat, "0", register)))
    ensures ParseArg(arch, Spell(Const, Captures(size, isFloat, number, [])))
      == ParseArg(arch, Spell(BareConst, Captures(size, isFloat, number, [])))
  {
    var c, c0, cn := Captures(size, isFloat, number, register), Captures(size, isFloat, [], register),
                     Captures(size, isFloat, number, []);
    ParseSpelled(arch, RegDerefWithOffset, c);
    ParseSpelled(arch, RegDerefWithOffsetARM, c);
    ParseSpelled(arch, RegDerefNoOffset, c0);
    ParseSpelled(arch, RegDerefNoOffsetARM, c0);
    assert "0"[..0] == [];
    assert NumeralValue("0") == 0;
    ParseSpelled(arch, RegDerefWithOffset, Captures(size, isFloat, "0", register));
    ParseSpelled(arch, Const, cn);
    ParseSpelled(arch, BareConst, cn);
  }

  // ----- the order of the cascade -----

  /** Constants compile to constants, and nothing else does. */
  lemma CompiledKind(arch: Arch, arg: Arg)
    ensures arg.loc.Immediate? && IsInt64(arg.size) && IsInt64(arg.loc.value) ==>
      CompileArg(arch, arg).Ok? && CompileArg(arch, arg).value.argType == ARG_CONST
    ensures !arg.loc.Immediate? && CompileArg(arch, arg).Ok? ==> CompileArg(arch, arg).value.argType != ARG_CONST
  {
  }

  lemma BareNumberDependsOnOrder(arch: Arch, order: seq<Pattern>, arg: Arg)
    requires Complete(order) && arg.loc.Immediate? && arg.loc.value >= 0 && IsInt64(arg.size) && IsInt64(arg.loc.value)
    ensures var r := ParseBy(arch, order, Print(BareConst, arg));
      r.Ok? && r.value.argType == ARG_CONST <==> BareConstFirst(order)
  {
    ReadBareNumber(order, arg);
    CompiledKind(arch, ReadBy(order, Print(BareConst, arg)).value);
  }

  /**
   A complete order of the seven patterns gives the parser's result on every text if and only if it
   tries the bare constant before the register.
   */
  lemma OrderIrrelevant(arch: Arch, order: seq<Pattern>)
    requires Complete(order)
    ensures (forall text :: ParseBy(arch, order, text) == ParseArg(arch, text)) <==> BareConstFirst(order)
  {
    if BareConstFirst(order) {
      forall text ensures ParseBy(arch, order, text) == ParseArg(arch, text) {
        OrderIrrelevantAt(order, TrimSpace(text));
        SameFirst(order, CASCADE, text);
      }
    } else {
      CascadeFacts();
      var arg := Arg(4, false, Immediate(5));
      BareNumberDependsOnOrder(arch, order, arg);
      BareNumberDependsOnOrder(arch, CASCADE, arg);
      assert ParseBy(arch, order, Print(BareConst, arg)) != ParseArg(arch, Print(BareConst, arg));
    }
  }
}
