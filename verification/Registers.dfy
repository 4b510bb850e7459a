/**
 Register names, register IDs and pt_regs slots on both supported architectures: the Go side maps a
 name to an ID, the C side maps the ID to a byte offset into pt_regs.
 */
module Registers {
  import opened Wrappers
  import opened Machine
  import opened Text

  /** `runtime.GOARCH` on the Go side, `__x86_64__` or `__aarch64__` on the C side. */
  datatype Arch = Amd64 | Arm64

  const REG_NONE: byte := 0

  // ----- the Go tables -----

  function Amd64RegisterID(name: string): Option<byte> {
    match name
    case "rax" => Some(1) case "eax" => Some(1) case "ax" => Some(1) case "al" => Some(1)
    case "rbx" => Some(2) case "ebx" => Some(2) case "bx" => Some(2) case "bl" => Some(2)
    case "rcx" => Some(3) case "ecx" => Some(3) case "cx" => Some(3) case "cl" => Some(3)
    case "rdx" => Some(4) case "edx" => Some(4) case "dx" => Some(4) case "dl" => Some(4)
    case "rsi" => Some(5) case "esi" => Some(5) case "si" => Some(5) case "sil" => Some(5)
    case "rdi" => Some(6) case "edi" => Some(6) case "di" => Some(6) case "dil" => Some(6)
    case "rbp" => Some(7) case "ebp" => Some(7) case "bp" => Some(7) case "bpl" => Some(7)
    case "rsp" => Some(8) case "esp" => Some(8) case "sp" => Some(8) case "spl" => Some(8)
    case "r8" => Some(9) case "r8d" => Some(9) case "r8w" => Some(9) case "r8b" => Some(9)
    case "r9" => Some(10) case "r9d" => Some(10) case "r9w" => Some(10) case "r9b" => Some(10)
    case "r10" => Some(11) case "r10d" => Some(11) case "r10w" => Some(11) case "r10b" => Some(11)
    case "r11" => Some(12) case "r11d" => Some(12) case "r11w" => Some(12) case "r11b" => Some(12)
    case "r12" => Some(13) case "r12d" => Some(13) case "r12w" => Some(13) case "r12b" => Some(13)
    case "r13" => Some(14) case "r13d" => Some(14) case "r13w" => Some(14) case "r13b" => Some(14)
    case "r14" => Some(15) case "r14d" => Some(15) case "r14w" => Some(15) case "r14b" => Some(15)
    case "r15" => Some(16) case "r15d" => Some(16) case "r15w" => Some(16) case "r15b" => Some(16)
    case "rip" => Some(17) case "eip" => Some(17) case "ip" => Some(17)
    case _ => None
  }

  function Arm64RegisterID(name: string): Option<byte> {
    match name
    case "x0" => Some(32) case "w0" => Some(32)
    case "x1" => Some(33) case "w1" => Some(33)
    case "x2" => Some(34) case "w2" => Some(34)
    case "x3" => Some(35) case "w3" => Some(35)
    case "x4" => Some(36) case "w4" => Some(36)
    case "x5" => Some(37) case "w5" => Some(37)
    case "x6" => Some(38) case "w6" => Some(38)
    case "x7" => Some(39) case "w7" => Some(39)
    case "x8" => Some(40) case "w8" => Some(40)
    case "x9" => Some(41) case "w9" => Some(41)
    case "x10" => Some(42) case "w10" => Some(42)
    case "x11" => Some(43) case "w11" => Some(43)
    case "x12" => Some(44) case "w12" => Some(44)
    case "x13" => Some(45) case "w13" => Some(45)
    case "x14" => Some(46) case "w14" => Some(46)
    case "x15" => Some(47) case "w15" => Some(47)
    case "x16" => Some(48) case "w16" => Some(48)
    case "x17" => Some(49) case "w17" => Some(49)
    case "x18" => Some(50) case "w18" => Some(50)
    case "x19" => Some(51) case "w19" => Some(51)
    case "x20" => Some(52) case "w20" => Some(52)
    case "x21" => Some(53) case "w21" => Some(53)
    case "x22" => Some(54) case "w22" => Some(54)
    case "x23" => Some(55) case "w23" => Some(55)
    case "x24" => Some(56) case "w24" => Some(56)
    case "x25" => Some(57) case "w25" => Some(57)
    case "x26" => Some(58) case "w26" => Some(58)
    case "x27" => Some(59) case "w27" => Some(59)
    case "x28" => Some(60) case "w28" => Some(60)
    case "x29" => Some(61) case "w29" => Some(61) case "fp" => Some(61)
    case "x30" => Some(62) case "w30" => Some(62) case "lr" => Some(62)
    case "sp" => Some(63) case "wsp" => Some(63)
    case "pc" => Some(64)
    case _ => None
  }

  function LookupRegister(arch: Arch, name: string): Option<byte> {
    match arch
    case Amd64 => Amd64RegisterID(name)
    case Arm64 => Arm64RegisterID(name)
  }

  // ----- the C switch -----

  /** Word index of a field of the x86-64 `struct pt_regs`. */
  function Amd64Field(field: string): int {
    match field
    case "r15" => 0
    case "r14" => 1
    case "r13" => 2
    case "r12" => 3
    case "bp" => 4
    case "bx" => 5
    case "r11" => 6
    case "r10" => 7
    case "r9" => 8
    case "r8" => 9
    case "ax" => 10
    case "cx" => 11
    case "dx" => 12
    case "si" => 13
    case "di" => 14
    case "orig_ax" => 15
    case "ip" => 16
    case "cs" => 17
    case "flags" => 18
    case "sp" => 19
    case "ss" => 20
    case _ => -1
  }

  function Amd64FieldOf(id: byte): string {
    match id
    case 1 => "ax"
    case 2 => "bx"
    case 3 => "cx"
    case 4 => "dx"
    case 5 => "si"
    case 6 => "di"
    case 7 => "bp"
    case 8 => "sp"
    case 9 => "r8"
    case 10 => "r9"
    case 11 => "r10"
    case 12 => "r11"
    case 13 => "r12"
    case 14 => "r13"
    case 15 => "r14"
    case 16 => "r15"
    case 17 => "ip"
    case _ => ""
  }

  /** `__bpf_usdt_get_reg_off`: byte offset of a register in pt_regs, or -1. */
  function RegisterOffset(arch: Arch, id: byte): int {
    match arch
    case Amd64 => if Amd64Field(Amd64FieldOf(id)) < 0 then -1 else 8 * Amd64Field(Amd64FieldOf(id))
    case Arm64 =>
      if 32 <= id <= 62 then 8 * (id - 32)  // regs[0] to regs[30]
      else if id == 63 then 8 * 31  // sp
      else if id == 64 then 8 * 32  // pc
      else -1
  }

  predicate IsRegister(arch: Arch, id: byte) {
    if arch == Amd64 then 1 <= id <= 17 else 32 <= id <= 64
  }

  /** Size of `struct pt_regs` in 8-byte words. */
  function PtRegsWords(arch: Arch): nat {
    if arch == Amd64 then 21 else 36
  }

  // ----- where a register lives, by its name alone -----

  /** The pt_regs field holding an x86-64 register: its 64-bit name without the leading r. */
  function Amd64Home(name: string): string {
    if |name| >= 2 && name[0] == 'r' && InClass(Digit, name[1]) then
      var last := name[|name| - 1];
      if last == 'd' || last == 'w' || last == 'b' then name[..|name| - 1] else name
    else if |name| == 3 then
      if name[2] == 'l' then name[..2] else name[1..]
    else if |name| == 2 && name[1] == 'l' then [name[0], 'x']
    else name
  }

  /** The word of pt_regs holding an arm64 register: xN and wN are word N. */
  function Arm64Home(name: string): int {
    if name == "fp" then 29
    else if name == "lr" then 30
    else if name == "sp" || name == "wsp" then 31
    else if name == "pc" then 32
    else if |name| >= 2 && AllIn(Digit, name[1..]) then DigitsValue(name[1..])
    else -1
  }

  function Home(arch: Arch, name: string): int {
    if arch == Amd64 then Amd64Field(Amd64Home(name)) else Arm64Home(name)
  }

  lemma Amd64Agree(name: string)
    requires Amd64RegisterID(name).Some?
    ensures Amd64FieldOf(Amd64RegisterID(name).value) == Amd64Home(name)
  {
  }

  lemma Amd64FieldsExist(id: byte)
    requires 1 <= id <= 17
    ensures 0 <= Amd64Field(Amd64FieldOf(id)) < 21
  {
  }

  lemma Amd64Range(name: string)
    ensures Amd64RegisterID(name).Some? ==> 1 <= Amd64RegisterID(name).value <= 17
  {
  }

  lemma Arm64Agree(name: string)
    requires Arm64RegisterID(name).Some?
    ensures 32 <= Arm64RegisterID(name).value <= 64
    ensures Arm64RegisterID(name).value - 32 == Arm64Home(name)
  {
    Arm64FoundNames(name);
    Arm64HomeOf(Arm64RegisterID(name).value, name);
  }

  lemma Arm64HomeOf(id: byte, name: string)
    requires 32 <= id <= 64 && name in Arm64Names(id)
    ensures Arm64Home(name) == id - 32
  {
    if id < 42 {
      assert name == [name[0], DigitChar(id - 32)];
      OneDigitHome(name[0], id - 32);
    } else if id < 63 && (name[0] == 'x' || name[0] == 'w') {
      assert name == [name[0], DigitChar((id - 32) / 10), DigitChar((id - 32) % 10)];
      TwoDigitHome(name[0], (id - 32) / 10, (id - 32) % 10);
    } else if id < 63 {
      assert name == if id == 61 then "fp" else "lr";
    }
  }

  lemma DigitCharValue(n: nat)
    requires n < 10
    ensures InClass(Digit, DigitChar(n)) && DigitValue(DigitChar(n)) == n
  {
    assert "0123456789"[n] == ('0' as int + n) as char;
  }

  lemma OneDigitHome(c: char, n: nat)
    requires (c == 'x' || c == 'w') && n < 10
    ensures Arm64Home([c, DigitChar(n)]) == n
  {
    var s := [DigitChar(n)];
    DigitCharValue(n);
    assert DigitsValue(s) == n by { assert s[..0] == []; }
    var name := [c, DigitChar(n)];
    assert name[1..] == s && name[0] == c;
  }

  lemma TwoDigitHome(c: char, t: nat, d: nat)
    requires (c == 'x' || c == 'w') && t < 10 && d < 10
    ensures Arm64Home([c, DigitChar(t), DigitChar(d)]) == 10 * t + d
  {
    DigitCharValue(t);
    DigitCharValue(d);
    assert [c, DigitChar(t), DigitChar(d)][1..] == [DigitChar(t), DigitChar(d)];
    TwoDigits([DigitChar(t), DigitChar(d)]);
  }

  lemma TwoDigits(s: string)
    requires |s| == 2 && AllIn(Digit, s)
    ensures DigitsValue(s) == 10 * DigitValue(s[0]) + DigitValue(s[1])
  {
    var t := s[..1];
    assert t[..0] == [];
    assert DigitsValue(t) == DigitValue(s[0]);
  }

  /**
   Accepted means readable: the ID the Go table gives a name leads the C switch to the pt_regs word
   that holds the named register, which is aligned and in bounds.
   */
  lemma RegisterFound(arch: Arch, name: string)
    requires LookupRegister(arch, name).Some?
    ensures RegisterOffset(arch, LookupRegister(arch, name).value) == 8 * Home(arch, name)
    ensures 0 <= Home(arch, name) < PtRegsWords(arch)
    ensures LookupRegister(arch, name).value != REG_NONE
  {
    match arch
    case Amd64 =>
      Amd64Agree(name);
      Amd64Range(name);
      Amd64FieldsExist(Amd64RegisterID(name).value);
    case Arm64 =>
      Arm64Agree(name);
  }

  /** A register the interpreter can find: its pt_regs slot is aligned and in bounds. */
  predicate Readable(arch: Arch, id: byte) {
    var off := RegisterOffset(arch, id);
    off % 8 == 0 && 0 <= off <= 8 * (PtRegsWords(arch) - 1)
  }

  lemma RegisterReadable(arch: Arch, name: string)
    requires LookupRegister(arch, name).Some?
    ensures Readable(arch, LookupRegister(arch, name).value)
  {
    LookupIsRegister(arch, name);
    RegisterIsReadable(arch, LookupRegister(arch, name).value);
  }

  lemma RegisterIsReadable(arch: Arch, id: byte)
    requires IsRegister(arch, id)
    ensures Readable(arch, id)
  {
  }

  lemma LookupIsRegister(arch: Arch, name: string)
    requires LookupRegister(arch, name).Some?
    ensures IsRegister(arch, LookupRegister(arch, name).value)
  {
  }

  /** Two accepted names share a pt_regs word exactly when they share a register ID. */
  lemma SlotSharing(arch: Arch, a: string, b: string)
    requires LookupRegister(arch, a).Some? && LookupRegister(arch, b).Some?
    ensures Home(arch, a) == Home(arch, b) <==> LookupRegister(arch, a) == LookupRegister(arch, b)
  {
    RegisterFound(arch, a);
    RegisterFound(arch, b);
    if arch == Amd64 {
      Amd64Range(a);
      Amd64Range(b);
      Amd64OffsetInverse(Amd64RegisterID(a).value);
      Amd64OffsetInverse(Amd64RegisterID(b).value);
    } else {
      Arm64Agree(a);
      Arm64Agree(b);
    }
  }

  /** The register ID stored at each word of the x86-64 pt_regs. */
  const AMD64_WORDS: seq<byte> := [16, 15, 14, 13, 7, 2, 12, 11, 10, 9, 1, 3, 4, 5, 6, 0, 17, 0, 0, 8, 0]

  lemma Amd64OffsetInverse(id: byte)
    requires 1 <= id <= 17
    ensures 0 <= Amd64Field(Amd64FieldOf(id)) < 21
    ensures AMD64_WORDS[Amd64Field(Amd64FieldOf(id))] == id
  {
  }

  lemma NamesAreAlphanumeric(arch: Arch, name: string)
    requires LookupRegister(arch, name).Some?
    ensures name != [] && AllIn(Alnum, name)
  {
    match arch
    case Amd64 => Amd64NamesAlphanumeric(name);
    case Arm64 => Arm64NamesAlphanumeric(name);
  }

  lemma Amd64NamesAlphanumeric(name: string)
    requires Amd64RegisterID(name).Some?
    ensures name != [] && AllIn(Alnum, name)
  {
  }

  lemma Arm64NamesAlphanumeric(name: string)
    requires Arm64RegisterID(name).Some?
    ensures name != [] && AllIn(Alnum, name)
  {
  }

  // ----- the names of a register -----

  /** The k-th general register of the first eight, without its width: ax, bx, cx, dx, si, di, bp, sp. */
  function Amd64Letters(k: nat): (char, char)
    requires k < 8
  {
    ("abcdsdbs"[k], "xxxxiipp"[k])
  }

  function DigitChar(n: nat): char
    requires n < 10
  {
    "0123456789"[n]
  }

  /**
   The names of an x86-64 register, widest first: rax, eax, ax, al; rsi, esi, si, sil; r8, r8d, r8w,
   r8b; and rip, eip, ip.
   */
  function Amd64Names(id: byte): seq<string>
    requires 1 <= id <= 17
  {
    if id <= 8 then
      var (a, b) := Amd64Letters(id - 1);
      [['r', a, b], ['e', a, b], [a, b], if id <= 4 then [a, 'l'] else [a, b, 'l']]
    else if id <= 10 then
      var d := DigitChar(id - 1);
      [['r', d], ['r', d, 'd'], ['r', d, 'w'], ['r', d, 'b']]
    else if id <= 16 then
      var d := DigitChar(id - 11);
      [['r', '1', d], ['r', '1', d, 'd'], ['r', '1', d, 'w'], ['r', '1', d, 'b']]
    else ["rip", "eip", "ip"]
  }

  /** The names of an arm64 register: xN and wN, with fp for x29 and lr for x30; sp and wsp; pc. */
  function Arm64Names(id: byte): seq<string>
    requires 32 <= id <= 64
  {
    if id == 64 then ["pc"]
    else if id == 63 then ["sp", "wsp"]
    else if id < 42 then
      var d := DigitChar(id - 32);
      [['x', d], ['w', d]]
    else
      var t, d := DigitChar((id - 32) / 10), DigitChar((id - 32) % 10);
      [['x', t, d], ['w', t, d]] + if id == 61 then ["fp"] else if id == 62 then ["lr"] else []
  }

  function RegisterNames(arch: Arch, id: byte): (names: seq<string>)
    requires IsRegister(arch, id)
    ensures names != []
  {
    if arch == Amd64 then Amd64Names(id) else Arm64Names(id)
  }

  lemma Amd64NamesFound(id: byte, name: string)
    requires 1 <= id <= 17 && name in Amd64Names(id)
    ensures Amd64RegisterID(name) == Some(id)
  {
    if id <= 8 {
      Amd64LetteredFound(id, name);
    } else if id <= 12 {
      Amd64NumberedFound(id, name);
    }
  }

  lemma Amd64NumberedFound(id: byte, name: string)
    requires 9 <= id <= 12 && name in Amd64Names(id)
    ensures Amd64RegisterID(name) == Some(id)
  {
  }

  lemma Amd64LetteredFound(id: byte, name: string)
    requires 1 <= id <= 8 && name in Amd64Names(id)
    ensures Amd64RegisterID(name) == Some(id)
  {
  }

  lemma Amd64FoundNames(name: string)
    requires Amd64RegisterID(name).Some?
    ensures 1 <= Amd64RegisterID(name).value <= 17
    ensures name in Amd64Names(Amd64RegisterID(name).value)
  {
  }

  lemma Arm64NamesFound(id: byte, name: string)
    requires 32 <= id <= 64 && name in Arm64Names(id)
    ensures Arm64RegisterID(name) == Some(id)
  {
    if 32 <= id < 45 {
      Arm64LowFound(id, name);
    } else if id < 57 {
      Arm64MiddleFound(id, name);
    }
  }

  lemma Arm64LowFound(id: byte, name: string)
    requires 32 <= id < 45 && name in Arm64Names(id)
    ensures Arm64RegisterID(name) == Some(id)
  {
  }

  lemma Arm64MiddleFound(id: byte, name: string)
    requires 45 <= id < 57 && name in Arm64Names(id)
    ensures Arm64RegisterID(name) == Some(id)
  {
  }

  lemma Arm64FoundNames(name: string)
    requires Arm64RegisterID(name).Some?
    ensures 32 <= Arm64RegisterID(name).value <= 64
    ensures name in Arm64Names(Arm64RegisterID(name).value)
  {
  }

  /** A name is accepted, with a given ID, if and only if it is one of the names of that register. */
  lemma LookupExactly(arch: Arch, name: string, id: byte)
    ensures LookupRegister(arch, name) == Some(id) <==> IsRegister(arch, id) && name in RegisterNames(arch, id)
  {
    if LookupRegister(arch, name) == Some(id) {
      if arch == Amd64 {
        Amd64FoundNames(name);
      } else {
        Arm64FoundNames(name);
      }
    }
    if IsRegister(arch, id) && name in RegisterNames(arch, id) {
      if arch == Amd64 {
        Amd64NamesFound(id, name);
      } else {
        Arm64NamesFound(id, name);
      }
    }
  }

  /** The 64-bit name of a register. */
  function RegisterName(arch: Arch, id: byte): string
    requires IsRegister(arch, id)
  {
    RegisterNames(arch, id)[0]
  }

  lemma RegisterNameFound(arch: Arch, id: byte)
    requires IsRegister(arch, id)
    ensures LookupRegister(arch, RegisterName(arch, id)) == Some(id)
  {
    LookupExactly(arch, RegisterName(arch, id), id);
  }
}
