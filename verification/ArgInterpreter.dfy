/**
 The BPF side: `bpf_usdt_arg` takes the specification ID from the attach cookie, fetches the
 specification's bytes from the map, evaluates it against the registers and user memory, and narrows
 the value with a pair of shifts.
 */
module ArgInterpreter {
  import opened Wrappers
  import opened Machine
  import opened Registers
  import opened Specs

  /** Error returned by the probe-read helpers on a fault (-EFAULT). */
  const EFAULT: int := -14

  /** What a probe sees when it fires. */
  datatype Context = Context(
    arch: Arch,
    endian: Endian,
    cookie: u64,                      // bpf_get_attach_cookie
    regs: seq<byte>,                  // the image of struct pt_regs
    regsFault: bool,                  // bpf_probe_read_kernel fails
    memory: map<u64, byte>)           // readable user memory
  {
    predicate Valid() {
      |regs| == 8 * PtRegsWords(arch)
    }
  }

  /** The specification map: keys are IDs, values are images of `struct bpf_usdt_spec`. */
  type SpecMap = m: map<u32, seq<byte>> | forall k :: k in m ==> |m[k]| == SPEC_SIZE witness map[]

  // ----- cookies -----

  /** `__bpf_usdt_spec_id`: the high half of the cookie, as a C `int`. */
  function SpecID(cookie: u64): int {
    var id := cookie / TWO_32;
    if id < 0x8000_0000 then id else id - TWO_32
  }

  /** `__bpf_usdt_cookie`: the low half. */
  function UserCookie(cookie: u64): u32 {
    cookie % TWO_32
  }

  // ----- helpers -----

  function LoadU64(e: Endian, bs: seq<byte>): u64
    requires |bs| == 8
  {
    DecodeBound(e, bs);
    Pow2Of64();
    Decode(e, bs)
  }

  /** `__bpf_usdt_get_reg_val`: the 8-byte register slot, or an error. */
  function RegisterValue(ctx: Context, id: byte): Result<u64, int>
    requires ctx.Valid()
  {
    var off := RegisterOffset(ctx.arch, id);
    if off < 0 then Err(-1)
    else if ctx.regsFault || off + 8 > |ctx.regs| then Err(EFAULT)
    else Ok(LoadU64(ctx.endian, ctx.regs[off..off + 8]))
  }

  predicate ReadableAt(memory: map<u64, byte>, addr: u64, n: nat) {
    forall a: int :: addr <= a < addr + n ==> a in memory
  }

  function BytesAt(memory: map<u64, byte>, addr: u64, n: nat): (bs: seq<byte>)
    requires ReadableAt(memory, addr, n)
    ensures |bs| == n
  {
    seq(n, i requires 0 <= i < n => memory[addr + i])
  }

  /** `bpf_probe_read_user` of eight bytes: all of them must be readable. */
  function ReadUser(ctx: Context, addr: u64): Result<u64, int> {
    if ReadableAt(ctx.memory, addr, 8) then Ok(LoadU64(ctx.endian, BytesAt(ctx.memory, addr, 8))) else Err(EFAULT)
  }

  /** Shift counts act modulo 64, as in the BPF instruction set (RFC 9669, section 4.1). */
  function ShiftCount(bitshift: s8): nat {
    bitshift % 64
  }

  // ----- what a specification evaluates to -----

  /** The residue `r` modulo `m`, sign- or zero-extended to a C `long`. */
  function Extended(r: int, m: int, signed: bool): s64 {
    ToS64(if signed then SignExtend(r, m) else r)
  }

  /** The low `64 - shift` bits of a value, extended. */
  function Narrow(v: u64, shift: nat, signed: bool): s64
    requires shift < 64
  {
    Extended(v % Pow2(64 - shift), Pow2(64 - shift), signed)
  }

  /** The 64 raw bits of an argument, before narrowing. */
  function Raw(ctx: Context, a: ArgSpec): Result<u64, int>
    requires ctx.Valid()
  {
    if a.argType == ARG_CONST then Ok(a.valOff)
    else if a.argType == ARG_REG then RegisterValue(ctx, a.regID)
    else if a.argType == ARG_REG_DEREF then
      match RegisterValue(ctx, a.regID)
      case Err(e) => Err(e)
      case Ok(base) =>
        match ReadUser(ctx, ToU64(base + a.valOff))
        case Err(e) => Err(e)
        case Ok(v) => Ok(if ctx.endian.Big? then Shr64(v, ShiftCount(a.bitshift)) else v)
    else Err(-1)
  }

  function Evaluate(ctx: Context, a: ArgSpec): Result<s64, int>
    requires ctx.Valid()
  {
    match Raw(ctx, a)
    case Err(e) => Err(e)
    case Ok(v) => Ok(Narrow(v, ShiftCount(a.bitshift), a.signed))
  }

  /** A known kind of argument whose register, if it has one, has a slot. */
  predicate Live(arch: Arch, a: ArgSpec) {
    || a.argType == ARG_CONST
    || ((a.argType == ARG_REG || a.argType == ARG_REG_DEREF) && RegisterOffset(arch, a.regID) >= 0)
  }

  /** Whatever the registers and the memory hold, only an argument that is not live is refused. */
  lemma RefusedExactly(ctx: Context, a: ArgSpec)
    requires ctx.Valid()
    ensures Evaluate(ctx, a) == Err(-1) <==> !Live(ctx.arch, a)
  {
  }

  /** Argument `n` of a specification; the count is compared as an unsigned number. */
  function FetchFrom(spec: Spec, ctx: Context, n: u64): (r: Result<s64, int>)
    requires ctx.Valid()
    ensures r.Err? ==> r.error != 0
  {
    if n >= MAX_ARG_CNT || n >= ToU64(spec.argCnt) then Err(-1) else Evaluate(ctx, spec.args[n])
  }

  /** Some argument of the specification is not refused. */
  ghost predicate HasLive(arch: Arch, spec: Spec) {
    exists n: nat :: n < MAX_ARG_CNT && n < ToU64(spec.argCnt) && Live(arch, spec.args[n])
  }

  /** Every argument number is refused exactly when the specification has no live argument. */
  lemma AllRefused(spec: Spec, ctx: Context)
    requires ctx.Valid()
    ensures (forall n: u64 :: FetchFrom(spec, ctx, n) == Err(-1)) <==> !HasLive(ctx.arch, spec)
  {
    if HasLive(ctx.arch, spec) {
      var n: nat :| n < MAX_ARG_CNT && n < ToU64(spec.argCnt) && Live(ctx.arch, spec.args[n]);
      RefusedExactly(ctx, spec.args[n]);
      assert FetchFrom(spec, ctx, n) != Err(-1);
    } else {
      forall n: u64 ensures FetchFrom(spec, ctx, n) == Err(-1) {
        if n < MAX_ARG_CNT && n < ToU64(spec.argCnt) {
          RefusedExactly(ctx, spec.args[n]);
        }
      }
    }
  }

  /** The value and the error code of fetching argument `n` of the probe that fired. */
  function Fetch(specs: SpecMap, ctx: Context, n: u64): (r: Result<s64, int>)
    requires ctx.Valid()
    ensures r.Err? ==> r.error != 0
  {
    var id := SpecID(ctx.cookie);
    if id < 0 || id !in specs then Err(-1) else FetchFrom(SpecFromBytes(ctx.endian, specs[id]), ctx, n)
  }

  lemma ShiftPair(v: u64, k: nat, signed: bool)
    requires k < 64
    ensures
      var s := Shl64(v, k);
      ToS64(if signed then Sar64(s, k) else Shr64(s, k)) == Narrow(v, k, signed)
  {
    if signed {
      ShiftPairSigned(v, k);
      ToS64Idempotent(Sar64(Shl64(v, k), k));
    } else {
      ShiftPairUnsigned(v, k);
    }
  }

  lemma ToS64Idempotent(x: int)
    ensures ToS64(ToS64(x)) == ToS64(x)
  {
  }

  /** The switch over the kind of argument and the narrowing that follows it. */
  method EvaluateArg(ctx: Context, a: ArgSpec) returns (err: int, res: s64)
    requires ctx.Valid()
    ensures match Evaluate(ctx, a)
      case Ok(v) => err == 0 && res == v
      case Err(e) => err == e && res == 0
  {
    res := 0;
    var k := ShiftCount(a.bitshift);
    var val: u64 := 0;
    if a.argType == ARG_CONST {
      val := a.valOff;
    } else if a.argType == ARG_REG {
      var r := RegisterValue(ctx, a.regID);
      if r.Err? {
        return r.error, res;
      }
      val := r.value;
    } else if a.argType == ARG_REG_DEREF {
      var r := RegisterValue(ctx, a.regID);
      if r.Err? {
        return r.error, res;
      }
      val := r.value;
      r := ReadUser(ctx, ToU64(val + a.valOff));
      if r.Err? {
        return r.error, res;
      }
      val := r.value;
      if ctx.endian.Big? {
        val := Shr64(val, k);
      }
    } else {
      return -1, res;
    }
    assert Raw(ctx, a) == Ok(val);
    ShiftPair(val, k, a.signed);
    val := Shl64(val, k);
    if a.signed {
      val := Sar64(val, k);
    } else {
      val := Shr64(val, k);
    }
    return 0, ToS64(val);
  }

  /** `bpf_usdt_arg`: `err` is 0 exactly when `res` is the fetched value, and otherwise `res` is 0. */
  method BpfUsdtArg(specs: SpecMap, ctx: Context, argNum: u64) returns (err: int, res: s64)
    requires ctx.Valid()
    ensures match Fetch(specs, ctx, argNum)
      case Ok(v) => err == 0 && res == v
      case Err(e) => err == e && err != 0 && res == 0
  {
    res := 0;
    var specID := SpecID(ctx.cookie);
    if specID < 0 {
      return -1, res;
    }
    if specID !in specs {
      return -1, res;
    }
    var spec := SpecFromBytes(ctx.endian, specs[specID]);
    if argNum >= MAX_ARG_CNT || argNum >= ToU64(spec.argCnt) {
      return -1, res;
    }
    err, res := EvaluateArg(ctx, spec.args[argNum]);
  }

  // ----- narrow reads -----

  /** The first `n` bytes at an address, in the machine's byte order, extended to a C `long`. */
  function NarrowRead(ctx: Context, addr: u64, n: nat, signed: bool): s64
    requires ReadableAt(ctx.memory, addr, n)
  {
    Extended(Decode(ctx.endian, BytesAt(ctx.memory, addr, n)), Pow2(8 * n), signed)
  }

  /**
   Reading eight bytes and narrowing equals reading just the argument's bytes: on little-endian
   directly, and on big-endian because of the extra right shift.
   */
  lemma NarrowReadCorrect(ctx: Context, addr: u64, n: nat, signed: bool)
    requires 1 <= n <= 8 && ReadableAt(ctx.memory, addr, 8)
    ensures
      var v := ReadUser(ctx, addr).value;
      var raw := if ctx.endian.Big? then Shr64(v, 64 - 8 * n) else v;
      Narrow(raw, 64 - 8 * n, signed) == NarrowRead(ctx, addr, n, signed)
  {
    var bs := BytesAt(ctx.memory, addr, 8);
    var m := Pow2(8 * n);
    assert bs[..n] == BytesAt(ctx.memory, addr, n);
    if ctx.endian.Little? {
      LittlePrefix(bs, n);
    } else {
      BigPrefix(bs, n);
      DecodeBound(Big, bs[..n]);
      SmallModulus(DecodeBig(bs[..n]), m);
    }
    assert 64 - (64 - 8 * n) == 8 * n;
  }

  lemma SmallModulus(v: nat, m: nat)
    requires v < m
    ensures v % m == v
  {
  }
}
