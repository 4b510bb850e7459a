/**
 The specifications shared by user space and BPF programs, and their byte image: Go views the struct
 as raw bytes, and the BPF side reads fields at the C struct's offsets.
 */
module Specs {
  import opened Machine

  const ARG_CONST: u32 := 0
  const ARG_REG: u32 := 1
  const ARG_REG_DEREF: u32 := 2

  const MAX_ARG_CNT: nat := 12

  datatype ArgSpec = ArgSpec(
    valOff: u64,
    argType: u32,
    regID: byte,
    signed: bool,
    bitshift: s8,
    isFloat: bool)

  /** Go's zero value. */
  const ZERO_ARG: ArgSpec := ArgSpec(0, ARG_CONST, 0, false, 0, false)

  type ArgArray = a: seq<ArgSpec> | |a| == MAX_ARG_CNT witness seq(MAX_ARG_CNT, _ => ZERO_ARG)

  datatype Spec = Spec(args: ArgArray, cookie: u64, argCnt: s16)

  // ----- the byte image -----

  const ARG_SIZE: nat := 24
  const SPEC_SIZE: nat := 304

  function BoolByte(b: bool): byte {
    if b then 1 else 0
  }

  /** One argument: 16 bytes of fields, one explicit padding byte and seven to round up. */
  function ArgToBytes(e: Endian, a: ArgSpec): (bs: seq<byte>)
    ensures |bs| == ARG_SIZE
  {
    Encode(e, a.valOff, 8) + Encode(e, a.argType, 4)
    + [a.regID, BoolByte(a.signed), a.bitshift % 0x100, BoolByte(a.isFloat)]
    + [0, 0, 0, 0, 0, 0, 0, 0]
  }

  function ArgsToBytes(e: Endian, args: seq<ArgSpec>): (bs: seq<byte>)
    ensures |bs| == ARG_SIZE * |args|
  {
    if args == [] then [] else ArgToBytes(e, args[0]) + ArgsToBytes(e, args[1..])
  }

  function SpecToBytes(e: Endian, s: Spec): (bs: seq<byte>)
    ensures |bs| == SPEC_SIZE
  {
    ArgsToBytes(e, s.args) + TailToBytes(e, s.cookie, s.argCnt)
  }

  /** The cookie, the count and six bytes to round up. */
  function TailToBytes(e: Endian, cookie: u64, argCnt: s16): (bs: seq<byte>)
    ensures |bs| == 16
  {
    Encode(e, cookie, 8) + Encode(e, argCnt % 0x1_0000, 2) + [0, 0, 0, 0, 0, 0]
  }

  // ----- reading it back at the C offsets -----

  /** The bytes `[off, off + n)` of an image as an unsigned integer. */
  function Load(e: Endian, image: seq<byte>, off: nat, n: nat): (v: nat)
    requires off + n <= |image|
    ensures v < Pow2(8 * n)
  {
    DecodeBound(e, image[off..off + n]);
    Decode(e, image[off..off + n])
  }

  /** `struct bpf_usdt_arg_spec` at byte `base` of an image. */
  function ArgFromBytes(e: Endian, image: seq<byte>, base: nat): ArgSpec
    requires base + ARG_SIZE <= |image|
  {
    Pow2Of64();
    ArgSpec(
      Load(e, image, base, 8),
      LoadU32(e, image, base + 8),
      image[base + 12],
      image[base + 13] != 0,
      ToS8(image[base + 14]),
      image[base + 15] != 0)
  }

  function LoadU32(e: Endian, image: seq<byte>, off: nat): u32
    requires off + 4 <= |image|
  {
    Pow2Of32();
    Load(e, image, off, 4)
  }

  /** `struct bpf_usdt_spec`: twelve arguments, the cookie at 288 and the count at 296. */
  function SpecFromBytes(e: Endian, image: seq<byte>): Spec
    requires |image| == SPEC_SIZE
  {
    Pow2Of64();
    Spec(
      seq(MAX_ARG_CNT, i requires 0 <= i < MAX_ARG_CNT => ArgFromBytes(e, image, ARG_SIZE * i)),
      Load(e, image, 288, 8),
      ToS16(Load(e, image, 296, 2)))
  }

  lemma LoadAt(e: Endian, image: seq<byte>, off: nat, v: nat, n: nat)
    requires off + n <= |image| && image[off..off + n] == Encode(e, v, n) && v < Pow2(8 * n)
    ensures Load(e, image, off, n) == v
  {
    DecodeEncode(e, v, n);
  }

  lemma SubSlice(front: seq<byte>, mid: seq<byte>, back: seq<byte>, i: nat, j: nat)
    requires i <= j <= |mid|
    ensures (front + mid + back)[|front| + i..|front| + j] == mid[i..j]
  {
  }

  lemma ArgFields(e: Endian, a: ArgSpec)
    ensures ArgToBytes(e, a)[0..8] == Encode(e, a.valOff, 8)
    ensures ArgToBytes(e, a)[8..12] == Encode(e, a.argType, 4)
  {
  }

  lemma ArgRoundTrip(e: Endian, front: seq<byte>, a: ArgSpec, back: seq<byte>)
    ensures ArgFromBytes(e, front + ArgToBytes(e, a) + back, |front|) == a
  {
    ArgWordsReadBack(e, front, a, back);
    ArgFlagsReadBack(e, front, a, back);
  }

  lemma ArgWordsReadBack(e: Endian, front: seq<byte>, a: ArgSpec, back: seq<byte>)
    ensures Load(e, front + ArgToBytes(e, a) + back, |front|, 8) == a.valOff
    ensures Load(e, front + ArgToBytes(e, a) + back, |front| + 8, 4) == a.argType
  {
    Pow2Of64();
    Pow2Of32();
    var bytes := ArgToBytes(e, a);
    ArgFields(e, a);
    SubSlice(front, bytes, back, 0, 8);
    SubSlice(front, bytes, back, 8, 12);
    LoadAt(e, front + bytes + back, |front|, a.valOff, 8);
    LoadAt(e, front + bytes + back, |front| + 8, a.argType, 4);
  }

  lemma ArgFlagsReadBack(e: Endian, front: seq<byte>, a: ArgSpec, back: seq<byte>)
    ensures var image := front + ArgToBytes(e, a) + back;
      var b := |front|;
      && image[b + 12] == a.regID
      && (image[b + 13] != 0) == a.signed
      && ToS8(image[b + 14]) == a.bitshift
      && (image[b + 15] != 0) == a.isFloat
      && image[b + 13] <= 1 && image[b + 15] <= 1
  {
  }

  lemma {:induction false} ArgsSplit(e: Endian, args: seq<ArgSpec>, i: nat)
    requires i <= |args|
    ensures ArgsToBytes(e, args) == ArgsToBytes(e, args[..i]) + ArgsToBytes(e, args[i..])
  {
    if i == 0 {
      assert args[..0] == [] && args[0..] == args;
    } else {
      ArgsSplit(e, args[1..], i - 1);
      assert args[..i] == [args[0]] + args[1..][..i - 1];
      assert args[i..] == args[1..][i - 1..];
      ArgsCons(e, args[0], args[1..][..i - 1]);
      Regroup(ArgToBytes(e, args[0]), ArgsToBytes(e, args[1..][..i - 1]), ArgsToBytes(e, args[i..]));
    }
  }

  lemma ArgsCons(e: Endian, a: ArgSpec, args: seq<ArgSpec>)
    ensures ArgsToBytes(e, [a] + args) == ArgToBytes(e, a) + ArgsToBytes(e, args)
  {
    assert ([a] + args)[1..] == args;
  }

  lemma Regroup(a: seq<byte>, b: seq<byte>, c: seq<byte>)
    ensures a + (b + c) == (a + b) + c
  {
  }

  lemma ImageAround(e: Endian, args: seq<ArgSpec>, i: nat, tail: seq<byte>)
    requires i < |args|
    ensures ArgsToBytes(e, args) + tail
         == ArgsToBytes(e, args[..i]) + ArgToBytes(e, args[i]) + (ArgsToBytes(e, args[i + 1..]) + tail)
  {
    var front, mid, back := ArgsToBytes(e, args[..i]), ArgToBytes(e, args[i]), ArgsToBytes(e, args[i + 1..]);
    ArgsSplit(e, args, i);
    assert args[i..] == [args[i]] + args[i + 1..];
    ArgsCons(e, args[i], args[i + 1..]);
    Regroup(front, mid, back);
    Regroup(front + mid, back, tail);
  }

  /** The C side reads back every field of every spec the Go side stores. */
  lemma SpecRoundTrip(e: Endian, s: Spec)
    ensures SpecFromBytes(e, SpecToBytes(e, s)) == s
  {
    var image := SpecToBytes(e, s);
    var t := SpecFromBytes(e, image);
    forall i | 0 <= i < MAX_ARG_CNT ensures t.args[i] == s.args[i] {
      ArgReadBack(e, s, i);
    }
    assert t.args == s.args;
    CookieReadBack(e, s);
  }

  lemma ArgReadBack(e: Endian, s: Spec, i: nat)
    requires i < MAX_ARG_CNT
    ensures ArgFromBytes(e, SpecToBytes(e, s), ARG_SIZE * i) == s.args[i]
  {
    var tail := TailToBytes(e, s.cookie, s.argCnt);
    ImageAround(e, s.args, i, tail);
    ArgRoundTrip(e, ArgsToBytes(e, s.args[..i]), s.args[i], ArgsToBytes(e, s.args[i + 1..]) + tail);
  }

  lemma CookieReadBack(e: Endian, s: Spec)
    ensures Load(e, SpecToBytes(e, s), 288, 8) == s.cookie
    ensures ToS16(Load(e, SpecToBytes(e, s), 296, 2)) == s.argCnt
  {
    TailReadBack(e, ArgsToBytes(e, s.args), s.cookie, s.argCnt);
  }

  lemma TailReadBack(e: Endian, front: seq<byte>, cookie: u64, argCnt: s16)
    ensures var image, b := front + TailToBytes(e, cookie, argCnt), |front|;
      Load(e, image, b, 8) == cookie && ToS16(Load(e, image, b + 8, 2)) == argCnt
  {
    var tail, low := TailToBytes(e, cookie, argCnt), argCnt % 0x1_0000;
    TailFields(e, cookie, argCnt);
    TailSlices(front, tail);
    assert cookie < Pow2(64) && low < Pow2(16) && ToS16(low) == argCnt by {
      Pow2Of64();
      Pow2Of32();
    }
    LoadAt(e, front + tail, |front|, cookie, 8);
    LoadAt(e, front + tail, |front| + 8, low, 2);
  }

  lemma TailSlices(front: seq<byte>, tail: seq<byte>)
    requires |tail| == 16
    ensures (front + tail)[|front|..|front| + 8] == tail[0..8]
    ensures (front + tail)[|front| + 8..|front| + 8 + 2] == tail[8..10]
  {
  }

  lemma TailFields(e: Endian, cookie: u64, argCnt: s16)
    ensures TailToBytes(e, cookie, argCnt)[0..8] == Encode(e, cookie, 8)
    ensures TailToBytes(e, cookie, argCnt)[8..10] == Encode(e, argCnt % 0x1_0000, 2)
  {
  }
}
