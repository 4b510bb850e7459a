/**
 The direct meaning of a USDT argument on the machine that runs into the probe, and the theorem that
 compiling an argument and interpreting the result preserves it.
 */
module ArgMeaning {
  import opened Wrappers
  import opened Machine
  import opened Registers
  import opened Specs
  import opened ArgSyntax
  import opened ArgCompiler
  import opened ArgInterpreter

  /** The 64-bit register a name belongs to. */
  function NamedRegister(ctx: Context, name: string): u64
    requires ctx.Valid() && 0 <= Home(ctx.arch, name) < PtRegsWords(ctx.arch)
  {
    var off := 8 * Home(ctx.arch, name);
    LoadU64(ctx.endian, ctx.regs[off..off + 8])
  }

  predicate NameExists(arch: Arch, loc: Location) {
    loc.Immediate? || 0 <= Home(arch, loc.name) < PtRegsWords(arch)
  }

  /**
   The value of SIZE@LOCATION: a constant, a register, or memory at register plus offset modulo 2^64,
   taken as SIZE bytes and extended by the sign of SIZE. There is no value when the registers or any
   of the eight bytes at the address cannot be read.
   */
  function Denote(ctx: Context, arg: Arg): Option<s64>
    requires ctx.Valid() && NameExists(ctx.arch, arg.loc)
  {
    var n, signed := EffectiveBytes(arg.size), arg.size < 0;
    var m := Pow2(8 * n);
    match arg.loc
    case Immediate(v) => Some(Extended(v % m, m, signed))
    case Register(name) =>
      if ctx.regsFault then None else Some(Extended(NamedRegister(ctx, name) % m, m, signed))
    case Memory(name, offset) =>
      if ctx.regsFault then None
      else
        var addr := (NamedRegister(ctx, name) + offset) % TWO_64;
        if ReadableAt(ctx.memory, addr, 8) then Some(NarrowRead(ctx, addr, n, signed)) else None
  }

  /** How the interpreter reports a meaning. */
  function Reported(v: Option<s64>): Result<s64, int> {
    match v
    case Some(x) => Ok(x)
    case None => Err(EFAULT)
  }

  lemma ResidueOfResidue(x: int, n: nat)
    requires n <= 8
    ensures ToU64(x) % Pow2(8 * n) == x % Pow2(8 * n)
  {
    Pow2Add(8 * n, 64 - 8 * n);
    Pow2Of64();
    assert 8 * n + (64 - 8 * n) == 64;
    DivisibleResidue(x, Pow2(8 * n), Pow2(64 - 8 * n));
  }

  lemma DivisibleResidue(x: int, m: int, k: int)
    requires 0 < m && 0 < k
    ensures 0 < m * k && (x % (m * k)) % m == x % m
  {
    var q, r := x / (m * k), x % (m * k);
    assert x == q * (m * k) + r;
    assert q * (m * k) == (q * k) * m;
    var q', r' := r / m, r % m;
    assert r == q' * m + r';
    assert x == (q * k + q') * m + r' by {
      assert (q * k + q') * m == (q * k) * m + q' * m;
    }
    DivModUnique(x, m, q * k + q', r');
  }

  lemma CompiledShift(size: int)
    ensures ShiftCount(Bitshift(size)) == 64 - 8 * EffectiveBytes(size)
  {
    BitshiftExact(size);
  }

  /** The interpreter finds, under the compiled ID, the register the name means. */
  lemma RegisterAgrees(ctx: Context, name: string)
    requires ctx.Valid() && LookupRegister(ctx.arch, name).Some?
    ensures 0 <= Home(ctx.arch, name) < PtRegsWords(ctx.arch)
    ensures RegisterValue(ctx, LookupRegister(ctx.arch, name).value)
      == if ctx.regsFault then Err(EFAULT) else Ok(NamedRegister(ctx, name))
  {
    RegisterFound(ctx.arch, name);
  }

  lemma ImmediatePreserved(ctx: Context, arg: Arg, spec: ArgSpec)
    requires ctx.Valid() && arg.loc.Immediate? && CompileArg(ctx.arch, arg) == Ok(spec)
    ensures Evaluate(ctx, spec) == Reported(Denote(ctx, arg))
  {
    CompiledShift(arg.size);
    ResidueOfResidue(arg.loc.value, EffectiveBytes(arg.size));
  }

  /** What a compiled register or memory argument looks like to the interpreter. */
  ghost predicate Faithful(ctx: Context, arg: Arg, spec: ArgSpec)
    requires ctx.Valid() && !arg.loc.Immediate?
  {
    && NameExists(ctx.arch, arg.loc)
    && ShiftCount(spec.bitshift) == 64 - 8 * EffectiveBytes(arg.size)
    && spec.signed == (arg.size < 0)
    && spec.argType == (if arg.loc.Register? then ARG_REG else ARG_REG_DEREF)
    && (arg.loc.Memory? ==> spec.valOff == ToU64(arg.loc.offset))
    && RegisterValue(ctx, spec.regID) == if ctx.regsFault then Err(EFAULT) else Ok(NamedRegister(ctx, arg.loc.name))
  }

  lemma CompiledIsFaithful(ctx: Context, arg: Arg, spec: ArgSpec)
    requires ctx.Valid() && !arg.loc.Immediate? && CompileArg(ctx.arch, arg) == Ok(spec)
    ensures Faithful(ctx, arg, spec)
  {
    CompiledShift(arg.size);
    RegisterAgrees(ctx, arg.loc.name);
  }

  lemma RegisterPreserved(ctx: Context, arg: Arg, spec: ArgSpec)
    requires ctx.Valid() && arg.loc.Register? && Faithful(ctx, arg, spec)
    ensures Evaluate(ctx, spec) == Reported(Denote(ctx, arg))
  {
  }

  lemma MemoryPreserved(ctx: Context, arg: Arg, spec: ArgSpec)
    requires ctx.Valid() && arg.loc.Memory? && Faithful(ctx, arg, spec)
    ensures Evaluate(ctx, spec) == Reported(Denote(ctx, arg))
  {
    if !ctx.regsFault {
      var addr := (NamedRegister(ctx, arg.loc.name) + arg.loc.offset) % TWO_64;
      RawMemory(ctx, arg, spec, addr);
      if ReadableAt(ctx.memory, addr, 8) {
        NarrowReadCorrect(ctx, addr, EffectiveBytes(arg.size), arg.size < 0);
      }
    }
  }

  lemma RawMemory(ctx: Context, arg: Arg, spec: ArgSpec, addr: u64)
    requires ctx.Valid() && !ctx.regsFault && arg.loc.Memory? && Faithful(ctx, arg, spec)
    requires addr == (NamedRegister(ctx, arg.loc.name) + arg.loc.offset) % TWO_64
    ensures Raw(ctx, spec) ==
      match ReadUser(ctx, addr)
      case Err(e) => Err(e)
      case Ok(v) => Ok(if ctx.endian.Big? then Shr64(v, 64 - 8 * EffectiveBytes(arg.size)) else v)
  {
    WrappedSum(NamedRegister(ctx, arg.loc.name), arg.loc.offset);
  }

  lemma WrappedSum(base: int, offset: int)
    ensures ToU64(base + ToU64(offset)) == (base + offset) % TWO_64
  {
  }

  /** Compiler correctness: interpreting what an argument compiles to gives the argument's meaning. */
  lemma MeaningPreserved(ctx: Context, arg: Arg)
    requires ctx.Valid() && CompileArg(ctx.arch, arg).Ok?
    ensures NameExists(ctx.arch, arg.loc)
    ensures Evaluate(ctx, CompileArg(ctx.arch, arg).value) == Reported(Denote(ctx, arg))
  {
    var spec := CompileArg(ctx.arch, arg).value;
    match arg.loc
    case Immediate(_) =>
      ImmediatePreserved(ctx, arg, spec);
    case Register(_) =>
      CompiledIsFaithful(ctx, arg, spec);
      RegisterPreserved(ctx, arg, spec);
    case Memory(_, _) =>
      CompiledIsFaithful(ctx, arg, spec);
      MemoryPreserved(ctx, arg, spec);
  }

  /**
   Eight bytes are read whatever the size: an argument whose own bytes are readable, but not the
   eight bytes at its address, is an error (as at the end of the last mapped page).
   */
  lemma ShortReadFaults(ctx: Context, arg: Arg)
    requires ctx.Valid() && arg.loc.Memory? && CompileArg(ctx.arch, arg).Ok?
    ensures NameExists(ctx.arch, arg.loc)
    ensures var addr := (NamedRegister(ctx, arg.loc.name) + arg.loc.offset) % TWO_64;
      Evaluate(ctx, CompileArg(ctx.arch, arg).value).Ok?
      <==> !ctx.regsFault && forall a: int :: addr <= a < addr + 8 ==> a in ctx.memory
  {
    MeaningPreserved(ctx, arg);
    DenotesWhenReadable(ctx, arg);
  }

  lemma DenotesWhenReadable(ctx: Context, arg: Arg)
    requires ctx.Valid() && arg.loc.Memory? && NameExists(ctx.arch, arg.loc)
    ensures var addr := (NamedRegister(ctx, arg.loc.name) + arg.loc.offset) % TWO_64;
      Denote(ctx, arg).Some? <==> !ctx.regsFault && forall a: int :: addr <= a < addr + 8 ==> a in ctx.memory
  {
  }

  // ----- what was written is what is read -----

  /** The C `long` that an `n`-byte value becomes: negative when its top bit is a sign. */
  function Long(v: nat, n: nat, signed: bool): int
    requires 1 <= n
  {
    if v >= Pow2(8 * n - 1) && (signed || n == 8) then v - Pow2(8 * n) else v
  }

  lemma ExtendedIsLong(v: nat, n: nat, signed: bool)
    requires 1 <= n <= 8 && v < Pow2(8 * n)
    ensures Extended(v, Pow2(8 * n), signed) == Long(v, n, signed)
  {
    var m, h := Pow2(8 * n), Pow2(8 * n - 1);
    assert m == 2 * h;
    SizeLimits(n);
    LongOf(v, m, h, signed);
  }

  lemma SizeLimits(n: nat)
    requires 1 <= n <= 8
    ensures if n == 8 then Pow2(8 * n) == TWO_64 else Pow2(8 * n) <= TWO_64 / 0x100
  {
    Pow2Of64();
    if n < 8 {
      Pow2Add(8, 56);
      BelowPow2(8 * n, 56);
    }
  }

  lemma BelowPow2(a: nat, b: nat)
    requires a <= b
    ensures Pow2(a) <= Pow2(b)
  {
    Pow2Add(a, b - a);
    MulMonotone(1, Pow2(b - a), Pow2(a));
  }

  lemma LongOf(v: nat, m: nat, h: nat, signed: bool)
    requires v < m == 2 * h && (m == TWO_64 || m <= TWO_64 / 0x100)
    ensures Extended(v, m, signed) == if v >= h && (signed || m == TWO_64) then v - m else v
  {
  }

  /** Word `w` of the registers holds `v`, in the machine's byte order. */
  ghost predicate WordHolds(ctx: Context, w: nat, v: u64) {
    8 * w + 8 <= |ctx.regs| && forall k :: 0 <= k < 8 ==> ctx.regs[8 * w + k] == Encode(ctx.endian, v, 8)[k]
  }

  /** The `n` bytes at an address are those of `v`, in the machine's byte order. */
  ghost predicate MemoryHolds(ctx: Context, addr: u64, v: nat, n: nat) {
    forall k :: 0 <= k < n ==> addr + k in ctx.memory && ctx.memory[addr + k] == Encode(ctx.endian, v, n)[k]
  }

  lemma WordRead(ctx: Context, name: string, v: u64)
    requires ctx.Valid() && 0 <= Home(ctx.arch, name) < PtRegsWords(ctx.arch)
    requires WordHolds(ctx, Home(ctx.arch, name), v)
    ensures NamedRegister(ctx, name) == v
  {
    var off := 8 * Home(ctx.arch, name);
    assert ctx.regs[off..off + 8] == Encode(ctx.endian, v, 8);
    Pow2Of64();
    DecodeEncode(ctx.endian, v, 8);
  }

  lemma MemoryRead(ctx: Context, addr: u64, v: nat, n: nat, signed: bool)
    requires 1 <= n <= 8 && v < Pow2(8 * n) && ReadableAt(ctx.memory, addr, n) && MemoryHolds(ctx, addr, v, n)
    ensures NarrowRead(ctx, addr, n, signed) == Long(v, n, signed)
  {
    assert BytesAt(ctx.memory, addr, n) == Encode(ctx.endian, v, n);
    DecodeEncode(ctx.endian, v, n);
    ExtendedIsLong(v, n, signed);
  }

  /** A constant argument is its lowest bytes. */
  lemma ConstantRead(ctx: Context, arg: Arg)
    requires ctx.Valid() && arg.loc.Immediate?
    ensures var n := EffectiveBytes(arg.size);
      Denote(ctx, arg) == Some(Long(arg.loc.value % Pow2(8 * n), n, arg.size < 0))
  {
    var n := EffectiveBytes(arg.size);
    ExtendedIsLong(arg.loc.value % Pow2(8 * n), n, arg.size < 0);
  }

  /** A register argument is the lowest bytes of what was written to the register. */
  lemma RegisterRead(ctx: Context, arg: Arg, v: u64)
    requires ctx.Valid() && !ctx.regsFault && arg.loc.Register? && NameExists(ctx.arch, arg.loc)
    requires WordHolds(ctx, Home(ctx.arch, arg.loc.name), v)
    ensures var n := EffectiveBytes(arg.size);
      Denote(ctx, arg) == Some(Long(v % Pow2(8 * n), n, arg.size < 0))
  {
    var n := EffectiveBytes(arg.size);
    WordRead(ctx, arg.loc.name, v);
    ExtendedIsLong(v % Pow2(8 * n), n, arg.size < 0);
  }

  /** `base` is in the register of a memory argument, and the bytes of `v` are at base plus offset. */
  ghost predicate Written(ctx: Context, arg: Arg, base: u64, v: nat)
    requires arg.loc.Memory? && NameExists(ctx.arch, arg.loc)
  {
    var addr, n := (base + arg.loc.offset) % TWO_64, EffectiveBytes(arg.size);
    && WordHolds(ctx, Home(ctx.arch, arg.loc.name), base)
    && v < Pow2(8 * n) && MemoryHolds(ctx, addr, v, n)
    && forall a: int :: addr <= a < addr + 8 ==> a in ctx.memory
  }

  /** A memory argument is what was written at its address, if eight bytes are readable there. */
  lemma MemoryArgumentRead(ctx: Context, arg: Arg, base: u64, v: nat)
    requires ctx.Valid() && !ctx.regsFault && arg.loc.Memory? && NameExists(ctx.arch, arg.loc)
    requires Written(ctx, arg, base, v)
    ensures Denote(ctx, arg) == Some(Long(v, EffectiveBytes(arg.size), arg.size < 0))
  {
    var addr, n := (base + arg.loc.offset) % TWO_64, EffectiveBytes(arg.size);
    WordRead(ctx, arg.loc.name, base);
    MemoryRead(ctx, addr, v, n, arg.size < 0);
  }

  /** The value of an argument, from the bytes written to registers and memory alone. */
  ghost predicate ValueIs(ctx: Context, arg: Arg, r: Result<s64, int>)
    requires NameExists(ctx.arch, arg.loc)
  {
    var n, signed := EffectiveBytes(arg.size), arg.size < 0;
    match arg.loc
    case Immediate(x) => r == Ok(Long(x % Pow2(8 * n), n, signed))
    case Register(name) =>
      if ctx.regsFault then r == Err(EFAULT)
      else forall v: u64 :: WordHolds(ctx, Home(ctx.arch, name), v) ==> r == Ok(Long(v % Pow2(8 * n), n, signed))
    case Memory(name, offset) =>
      if ctx.regsFault then r == Err(EFAULT)
      else forall base: u64, v: nat :: Written(ctx, arg, base, v) ==> r == Ok(Long(v, n, signed))
  }

  /** What is evaluated is what was written, for every kind, size and byte order. */
  lemma EvaluatedAsWritten(ctx: Context, arg: Arg)
    requires ctx.Valid() && CompileArg(ctx.arch, arg).Ok?
    ensures NameExists(ctx.arch, arg.loc)
    ensures ValueIs(ctx, arg, Evaluate(ctx, CompileArg(ctx.arch, arg).value))
    ensures ValueIs(ctx, arg, Reported(Denote(ctx, arg)))
  {
    MeaningPreserved(ctx, arg);
    match arg.loc
    case Immediate(_) =>
      ConstantRead(ctx, arg);
    case Register(name) =>
      if !ctx.regsFault {
        forall v: u64 | WordHolds(ctx, Home(ctx.arch, name), v)
          ensures Denote(ctx, arg) ==
            Some(Long(v % Pow2(8 * EffectiveBytes(arg.size)), EffectiveBytes(arg.size), arg.size < 0))
        {
          RegisterRead(ctx, arg, v);
        }
      }
    case Memory(_, _) =>
      if !ctx.regsFault {
        forall base: u64, v: nat | Written(ctx, arg, base, v)
          ensures Denote(ctx, arg) == Some(Long(v, EffectiveBytes(arg.size), arg.size < 0))
        {
          MemoryArgumentRead(ctx, arg, base, v);
        }
      }
  }
}
