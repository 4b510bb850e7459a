/**
 How Go reads text from bytes: a string is a sequence of bytes, and ranging over it or matching it
 decodes UTF-8 (sections 3 and 4 of RFC 3629), one replacement character for every malformed byte.
 */
module Utf8 {
  import opened Machine

  function EncodeRune(c: char): (bs: seq<byte>)
    ensures 1 <= |bs| <= 4
  {
    var x := c as int;
    if x < 0x80 then [x]
    else if x < 0x800 then [0xC0 + x / 0x40, 0x80 + x % 0x40]
    else if x < 0x1_0000 then [0xE0 + x / 0x1000, 0x80 + x / 0x40 % 0x40, 0x80 + x % 0x40]
    else [0xF0 + x / 0x4_0000, 0x80 + x / 0x1000 % 0x40, 0x80 + x / 0x40 % 0x40, 0x80 + x % 0x40]
  }

  function EncodeText(s: string): seq<byte> {
    if s == [] then [] else EncodeRune(s[0]) + EncodeText(s[1..])
  }

  /** How many bytes a first byte announces; 0 for a byte that cannot come first. */
  function Announced(b: byte): (n: nat)
    ensures n <= 4
  {
    if b < 0x80 then 1
    else if 0xC0 <= b < 0xE0 then 2
    else if 0xE0 <= b < 0xF0 then 3
    else if 0xF0 <= b < 0xF8 then 4
    else 0
  }

  predicate IsTrailing(b: byte) {
    0x80 <= b < 0xC0
  }

  /** The bits of a byte below those that mark its place. */
  function Low(b: byte, m: int): int
    requires m > 0
  {
    b % m
  }

  /** The bits of a sequence of the announced length. */
  function Bits(bs: seq<byte>): int
    requires 1 <= |bs| <= 4
  {
    if |bs| == 1 then bs[0]
    else if |bs| == 2 then Low(bs[0], 0x20) * 0x40 + Low(bs[1], 0x40)
    else if |bs| == 3 then Low(bs[0], 0x10) * 0x1000 + Low(bs[1], 0x40) * 0x40 + Low(bs[2], 0x40)
    else Low(bs[0], 8) * 0x4_0000 + Low(bs[1], 0x40) * 0x1000 + Low(bs[2], 0x40) * 0x40 + Low(bs[3], 0x40)
  }

  predicate IsScalar(x: int) {
    0 <= x < 0xD800 || 0xE000 <= x < 0x11_0000
  }

  /** A decoded character and the number of bytes it took. */
  datatype Rune = Rune(c: char, width: nat)

  const MALFORMED: Rune := Rune('\U{FFFD}', 1)

  /** The first character; an overlong form, a surrogate or a truncated sequence is malformed. */
  function FirstRune(bs: seq<byte>): (r: Rune)
    requires bs != []
    ensures 1 <= r.width <= |bs|
  {
    var n := Announced(bs[0]);
    if n == 0 || n > |bs| || !(forall i :: 1 <= i < n ==> IsTrailing(bs[i])) then MALFORMED
    else
      var x := Bits(bs[..n]);
      if IsScalar(x) && |EncodeRune(x as char)| == n then Rune(x as char, n) else MALFORMED
  }

  function DecodeText(bs: seq<byte>): string
    decreases |bs|
  {
    if bs == [] then []
    else
      var r := FirstRune(bs);
      [r.c] + DecodeText(bs[r.width..])
  }

  lemma RuneShape(c: char)
    ensures var bs := EncodeRune(c);
      && Announced(bs[0]) == |bs|
      && (forall i :: 1 <= i < |bs| ==> IsTrailing(bs[i]))
      && (c != '\0' ==> 0 !in bs)
  {
  }

  lemma RuneBits(c: char)
    ensures Bits(EncodeRune(c)) == c as int
  {
    var x := c as int;
    var y, z := x / 0x40, x / 0x1000;
    Trailing(x);
    Trailing(y);
    Trailing(z);
    if 0x80 <= x < 0x800 {
      Leading(y, 0xC0, 0x20);
    } else if 0x800 <= x < 0x1_0000 {
      Leading(z, 0xE0, 0x10);
    } else if 0x1_0000 <= x {
      Leading(x / 0x4_0000, 0xF0, 8);
    }
  }

  lemma Trailing(x: nat)
    ensures x == x / 0x40 * 0x40 + x % 0x40
    ensures x / 0x1000 == x / 0x40 / 0x40 && x / 0x4_0000 == x / 0x1000 / 0x40
    ensures Low(0x80 + x % 0x40, 0x40) == x % 0x40
  {
  }

  lemma Leading(x: nat, mark: int, m: nat)
    requires x < m && ((mark == 0xC0 && m == 0x20) || (mark == 0xE0 && m == 0x10) || (mark == 0xF0 && m == 8))
    ensures Low(mark + x, m) == x
  {
  }

  lemma FirstRuneEncoded(c: char, rest: seq<byte>)
    ensures FirstRune(EncodeRune(c) + rest) == Rune(c, |EncodeRune(c)|)
  {
    RuneShape(c);
    RuneBits(c);
    assert (EncodeRune(c) + rest)[..|EncodeRune(c)|] == EncodeRune(c);
  }

  /** Well-formed bytes are the encoding of the character they decode to. */
  lemma EncodeBits(bs: seq<byte>)
    requires 1 <= |bs| <= 4 && Announced(bs[0]) == |bs| && forall i :: 1 <= i < |bs| ==> IsTrailing(bs[i])
    requires IsScalar(Bits(bs)) && |EncodeRune(Bits(bs) as char)| == |bs|
    ensures EncodeRune(Bits(bs) as char) == bs
  {
    if |bs| == 2 {
      SplitBits(Low(bs[0], 0x20), Low(bs[1], 0x40));
    } else if |bs| == 3 {
      EncodeThree(bs);
    } else if |bs| == 4 {
      EncodeFour(bs);
    }
  }

  lemma EncodeThree(bs: seq<byte>)
    requires |bs| == 3 && Announced(bs[0]) == 3 && IsTrailing(bs[1]) && IsTrailing(bs[2])
    requires IsScalar(Bits(bs)) && |EncodeRune(Bits(bs) as char)| == 3
    ensures EncodeRune(Bits(bs) as char) == bs
  {
    var y := Low(bs[0], 0x10) * 0x40 + Low(bs[1], 0x40);
    SplitBits(Low(bs[0], 0x10), Low(bs[1], 0x40));
    SplitBits(y, Low(bs[2], 0x40));
    Trailing(Bits(bs));
  }

  lemma EncodeFour(bs: seq<byte>)
    requires |bs| == 4 && Announced(bs[0]) == 4 && IsTrailing(bs[1]) && IsTrailing(bs[2]) && IsTrailing(bs[3])
    ensures IsScalar(Bits(bs)) && |EncodeRune(Bits(bs) as char)| == 4 ==> EncodeRune(Bits(bs) as char) == bs
  {
    var z := Low(bs[0], 8) * 0x40 + Low(bs[1], 0x40);
    var y := z * 0x40 + Low(bs[2], 0x40);
    SplitBits(Low(bs[0], 8), Low(bs[1], 0x40));
    SplitBits(z, Low(bs[2], 0x40));
    SplitBits(y, Low(bs[3], 0x40));
    Trailing(Bits(bs));
  }

  lemma SplitBits(high: nat, low: nat)
    requires low < 0x40
    ensures (high * 0x40 + low) / 0x40 == high && (high * 0x40 + low) % 0x40 == low
  {
  }

  /**
   The first character is the one whose encoding the bytes start with. If they start with none, it is
   the replacement character, for one byte.
   */
  lemma FirstRuneExactly(bs: seq<byte>)
    requires bs != []
    ensures forall c: char :: EncodeRune(c) <= bs ==> FirstRune(bs) == Rune(c, |EncodeRune(c)|)
    ensures (forall c: char :: !(EncodeRune(c) <= bs)) ==> FirstRune(bs) == Rune('\U{FFFD}', 1)
  {
    forall c: char | EncodeRune(c) <= bs ensures FirstRune(bs) == Rune(c, |EncodeRune(c)|) {
      FirstRuneEncoded(c, bs[|EncodeRune(c)|..]);
      assert EncodeRune(c) + bs[|EncodeRune(c)|..] == bs;
    }
    if FirstRune(bs) != MALFORMED {
      EncodeBits(bs[..Announced(bs[0])]);
      assert EncodeRune(FirstRune(bs).c) <= bs;
    }
  }

  /** The bytes start with the encoding of no character. */
  ghost predicate Malformed(bs: seq<byte>) {
    forall c: char :: !(EncodeRune(c) <= bs)
  }

  /** Texts are decoded character by character, with one replacement character per malformed byte. */
  lemma DecodeTextExactly(c: char, rest: seq<byte>, bs: seq<byte>)
    ensures DecodeText(EncodeRune(c) + rest) == [c] + DecodeText(rest)
    ensures bs != [] && Malformed(bs) ==> DecodeText(bs) == ['\U{FFFD}'] + DecodeText(bs[1..])
  {
    FirstRuneEncoded(c, rest);
    assert (EncodeRune(c) + rest)[|EncodeRune(c)|..] == rest;
    if bs != [] {
      FirstRuneExactly(bs);
    }
  }

  /** Every text survives being encoded and decoded. */
  lemma {:induction false} TextRoundTrip(s: string)
    ensures DecodeText(EncodeText(s)) == s
  {
    if s != [] {
      var first, rest := EncodeRune(s[0]), EncodeText(s[1..]);
      FirstRuneEncoded(s[0], rest);
      assert (first + rest)[|first|..] == rest;
      TextRoundTrip(s[1..]);
    }
  }

  /** Only the NUL character is encoded with a NUL byte. */
  lemma {:induction false} NoNulByte(s: string)
    requires '\0' !in s
    ensures 0 !in EncodeText(s)
  {
    if s != [] {
      RuneShape(s[0]);
      NoNulByte(s[1..]);
    }
  }
}
